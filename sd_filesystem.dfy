/**
 * The SD card as the `embedded_sdmmc` library presents it to the framework, reduced to what
 * the framework's path walks rely on: a tree of named directories and files, the calls
 * `change_dir`, `make_dir_in_dir` and `open_file_in_dir`, and reads and writes at a file
 * position. The library itself is not part of this model; this module states the behaviour
 * the framework's code is modelled against.
 */
module SdFileSystem {
  import opened Wrappers
  import opened Bytes
  import opened Text

  /** Whether the card answers the next open-volume request (it does not once none are left). */
  predicate Answers(answers: seq<bool>)
  {
    answers != [] && answers[0]
  }

  /** The card's answers to the requests after the next one. */
  function Remaining(answers: seq<bool>): seq<bool>
  {
    if answers == [] then [] else answers[1..]
  }

  /** A place on the card: the names of the directories from the root, then the entry's name. */
  type Path = seq<Str>

  /** The card's contents: its directories (the root is `[]`) and its files with their bytes. */
  datatype Tree = Tree(dirs: set<Path>, files: map<Path, seq<byte>>)

  function Parent(p: Path): Path
    requires p != []
  {
    p[..|p| - 1]
  }

  /** Every directory and file hangs off a directory, and nothing is both a file and a directory. */
  ghost predicate WellFormed(t: Tree)
  {
    && [] in t.dirs
    && (forall p {:trigger Parent(p)} :: p in t.dirs && p != [] ==> Parent(p) in t.dirs)
    && (forall p :: p in t.files ==> p != [] && Parent(p) in t.dirs && p !in t.dirs)
  }

  /** The directories above a directory exist too. */
  lemma {:induction false} Ancestors(t: Tree, p: Path, k: nat)
    requires WellFormed(t) && p in t.dirs && k <= |p|
    ensures p[..k] in t.dirs
    decreases |p| - k
  {
    if k < |p| {
      Ancestors(t, p, k + 1);
      assert Parent(p[..k + 1]) == p[..k];
    } else {
      assert p[..k] == p;
    }
  }

  /** A name the card accepts; FAT's 8.3 rules and case folding are not modelled. */
  predicate ValidName(name: Str)
  {
    name != []
  }

  /** `make_dir_in_dir`: a new empty directory in `cwd`, unless the name is taken or invalid. */
  function MakeDirIn(t: Tree, cwd: Path, name: Str): (r: Option<Tree>)
    ensures r.Some? ==> cwd + [name] in r.value.dirs && r.value.files == t.files && t.dirs <= r.value.dirs
  {
    var p := cwd + [name];
    if !ValidName(name) || p in t.dirs || p in t.files then None
    else Some(Tree(t.dirs + {p}, t.files))
  }

  /** A new directory in an existing directory keeps the tree well formed. */
  lemma MakeDirWellFormed(t: Tree, cwd: Path, name: Str)
    requires WellFormed(t) && cwd in t.dirs
    ensures MakeDirIn(t, cwd, name).Some? <==>
              ValidName(name) && cwd + [name] !in t.dirs && cwd + [name] !in t.files
    ensures MakeDirIn(t, cwd, name).Some? ==> WellFormed(MakeDirIn(t, cwd, name).value)
  {
    assert Parent(cwd + [name]) == cwd;
  }

  /** The library's open modes. */
  datatype Mode =
    | ReadOnly
    | ReadWriteAppend
    | ReadWriteTruncate
    | ReadWriteCreate
    | ReadWriteCreateOrTruncate
    | ReadWriteCreateOrAppend

  /** Modes that create a missing file. */
  predicate Creates(mode: Mode)
  {
    mode == ReadWriteCreate || mode == ReadWriteCreateOrTruncate || mode == ReadWriteCreateOrAppend
  }

  /** Modes that empty an existing file. */
  predicate Truncates(mode: Mode)
  {
    mode == ReadWriteTruncate || mode == ReadWriteCreateOrTruncate
  }

  /** Modes that start at the end of the file. */
  predicate Appends(mode: Mode)
  {
    mode == ReadWriteAppend || mode == ReadWriteCreateOrAppend
  }

  /** An open file: where it is, how it was opened, and where reads and writes start. */
  datatype RawFile = RawFile(path: Path, mode: Mode, position: nat)

  /**
   * `open_file_in_dir` in the directory `cwd` while the files `open` are open: refused for an
   * invalid name, a directory, a file already open, an existing file in `ReadWriteCreate`
   * and a missing file in a mode that does not create; a truncating mode empties the file
   * and an appending mode starts at its end.
   */
  function OpenFileIn(t: Tree, open: set<Path>, cwd: Path, name: Str, mode: Mode): (r: Option<(Tree, RawFile)>)
    ensures r.Some? ==> r.value.1.path == cwd + [name] && r.value.1.mode == mode
    ensures r.Some? ==> r.value.1.path in r.value.0.files && r.value.0.dirs == t.dirs
    ensures r.Some? ==> r.value.1.path !in open && r.value.1.position <= |r.value.0.files[r.value.1.path]|
  {
    var p := cwd + [name];
    if !ValidName(name) || p in t.dirs || p in open then None
    else if p in t.files then
      if mode == ReadWriteCreate then None
      else
        var data := if Truncates(mode) then [] else t.files[p];
        Some((Tree(t.dirs, t.files[p := data]), RawFile(p, mode, if Appends(mode) then |data| else 0)))
    else if Creates(mode) then Some((Tree(t.dirs, t.files[p := []]), RawFile(p, mode, 0)))
    else None
  }

  /**
   * When a file opens: exactly the cases above refuse; the tree stays well formed; an
   * existing file keeps its bytes unless the mode truncates, and a new file is empty.
   */
  lemma OpenFileInMeaning(t: Tree, open: set<Path>, cwd: Path, name: Str, mode: Mode)
    requires WellFormed(t) && cwd in t.dirs
    ensures var p := cwd + [name];
            OpenFileIn(t, open, cwd, name, mode).None? <==>
              !ValidName(name) || p in t.dirs || p in open ||
              (p in t.files && mode == ReadWriteCreate) || (p !in t.files && !Creates(mode))
    ensures var r := OpenFileIn(t, open, cwd, name, mode);
            r.Some? ==> WellFormed(r.value.0) &&
                        r.value.0.files[r.value.1.path] ==
                          (if cwd + [name] in t.files && !Truncates(mode) then t.files[cwd + [name]] else []) &&
                        r.value.1.position == (if Appends(mode) then |r.value.0.files[r.value.1.path]| else 0) &&
                        r.value.0.files == t.files[cwd + [name] := r.value.0.files[r.value.1.path]]
  {
    assert Parent(cwd + [name]) == cwd;
  }

  /**
   * `read` into a buffer as long as the file, from `position`: the bytes from there on, the
   * rest of the buffer left zero.
   */
  function ReadInto(data: seq<byte>, position: nat): (buffer: seq<byte>)
    ensures |buffer| == |data|
    ensures forall i :: 0 <= i < |data| ==> buffer[i] == if position + i < |data| then data[position + i] else 0
  {
    seq(|data|, i requires 0 <= i < |data| => if position + i < |data| then data[position + i] else 0)
  }

  /** A read from the start gives the whole file. */
  lemma ReadFromStart(data: seq<byte>)
    ensures ReadInto(data, 0) == data
  {
  }

  /** A read from the end gives only zeros. */
  lemma ReadFromEnd(data: seq<byte>)
    ensures ReadInto(data, |data|) == seq(|data|, i => 0)
  {
  }

  /** `write` at `position`: the bytes replace what was there and extend the file past its end. */
  function WriteAt(data: seq<byte>, position: nat, bytes: seq<byte>): (r: seq<byte>)
    requires position <= |data|
    ensures |r| == if position + |bytes| < |data| then |data| else position + |bytes|
    ensures r[..position] == data[..position]
    ensures r[position..position + |bytes|] == bytes
    ensures position + |bytes| < |data| ==> r[position + |bytes|..] == data[position + |bytes|..]
  {
    data[..position] + bytes + (if position + |bytes| < |data| then data[position + |bytes|..] else [])
  }

  /** A write at the end appends. */
  lemma WriteAtEnd(data: seq<byte>, bytes: seq<byte>)
    ensures WriteAt(data, |data|, bytes) == data + bytes
  {
    assert data[..|data|] == data;
  }

  // ---------------------------------------------------------------------------------------
  // Walking a path

  /** The parts of a path that name a directory: the empty ones are skipped. */
  function Present(parts: seq<Str>): (r: seq<Str>)
    ensures |r| <= |parts|
    ensures forall i :: 0 <= i < |r| ==> r[i] != [] && r[i] in parts
  {
    if parts == [] then []
    else if parts[0] == [] then Present(parts[1..])
    else [parts[0]] + Present(parts[1..])
  }

  /** Why a walk stops: a directory that is missing, or one that cannot be made. */
  datatype WalkFailure = Missing(part: Str) | Unmakeable(part: Str)

  /**
   * Entering one part of a path from `cwd`: an empty part stays put, an existing directory
   * is entered, and a missing one is an error or, when `create` is set, is first made.
   */
  function Step(t: Tree, part: Str, cwd: Path, create: bool): (r: (Tree, Result<Path, WalkFailure>))
  {
    if part == [] then (t, Ok(cwd))
    else if cwd + [part] in t.dirs then (t, Ok(cwd + [part]))
    else if !create then (t, Err(Missing(part)))
    else
      match MakeDirIn(t, cwd, part)
      case None => (t, Err(Unmakeable(part)))
      case Some(made) => (made, Ok(cwd + [part]))
  }

  /**
   * Entering the directories `parts` from `cwd` one step at a time; the first failure stops
   * the walk, and the tree is returned with the directories made so far.
   */
  function Walk(t: Tree, parts: seq<Str>, cwd: Path, create: bool): (r: (Tree, Result<Path, WalkFailure>))
    decreases |parts|
  {
    if parts == [] then (t, Ok(cwd))
    else
      var s := Step(t, parts[0], cwd, create);
      if s.1.Err? then s else Walk(s.0, parts[1..], s.1.value, create)
  }

  /** A walk of two paths one after the other is the walk of the joined path. */
  lemma {:induction false} WalkAppend(t: Tree, ps: seq<Str>, qs: seq<Str>, cwd: Path, create: bool)
    ensures Walk(t, ps + qs, cwd, create) ==
              var w := Walk(t, ps, cwd, create);
              if w.1.Err? then w else Walk(w.0, qs, w.1.value, create)
    decreases |ps|
  {
    if ps == [] {
      assert ps + qs == qs;
    } else {
      assert (ps + qs)[0] == ps[0];
      assert (ps + qs)[1..] == ps[1..] + qs;
      var s := Step(t, ps[0], cwd, create);
      if s.1.Ok? {
        WalkAppend(s.0, ps[1..], qs, s.1.value, create);
      }
    }
  }

  /** Walking one part further takes one more step, unless the walk has already failed. */
  lemma WalkExtend(t: Tree, parts: seq<Str>, i: nat, cwd: Path, create: bool)
    requires i < |parts|
    ensures Walk(t, parts[..i + 1], cwd, create) ==
              var w := Walk(t, parts[..i], cwd, create);
              if w.1.Err? then w else Step(w.0, parts[i], w.1.value, create)
  {
    assert parts[..i + 1] == parts[..i] + [parts[i]];
    WalkAppend(t, parts[..i], [parts[i]], cwd, create);
  }

  /** A failed walk stays failed, with the same tree, however far the path goes on. */
  lemma WalkStops(t: Tree, parts: seq<Str>, n: nat, cwd: Path, create: bool)
    requires n <= |parts| && Walk(t, parts[..n], cwd, create).1.Err?
    ensures Walk(t, parts, cwd, create) == Walk(t, parts[..n], cwd, create)
  {
    assert parts == parts[..n] + parts[n..];
    WalkAppend(t, parts[..n], parts[n..], cwd, create);
  }

  /**
   * The loop of the framework's path walks: every part but the last, which names the file,
   * is entered from the root directory in turn, the empty ones skipped; a missing directory
   * stops the loop, or is first made when `create` is set.
   */
  method WalkDirs(t: Tree, parts: seq<Str>, create: bool) returns (t': Tree, r: Result<Path, WalkFailure>)
    requires parts != []
    ensures (t', r) == Walk(t, parts[..|parts| - 1], [], create)
  {
    t' := t;
    var dir: Path := [];
    var i := 0;
    while i < |parts|
      invariant i <= |parts| - 1
      invariant Walk(t, parts[..i], [], create) == (t', Ok(dir))
    {
      if i == |parts| - 1 {
        break;
      }
      var part := parts[i];
      WalkExtend(t, parts, i, [], create);
      assert parts[..|parts| - 1][..i + 1] == parts[..i + 1];
      if part != [] {
        if dir + [part] in t'.dirs {
          dir := dir + [part];
        } else if !create {
          r := Err(Missing(part));
          WalkStops(t, parts[..|parts| - 1], i + 1, [], create);
          return;
        } else {
          var made := MakeDirIn(t', dir, part);
          if made.None? {
            r := Err(Unmakeable(part));
            WalkStops(t, parts[..|parts| - 1], i + 1, [], create);
            return;
          }
          t' := made.value;
          dir := dir + [part];
        }
      }
      i := i + 1;
    }
    r := Ok(dir);
  }

  /**
   * A walk ends in the directory the non-empty parts name; it never changes a file and
   * never removes a directory, keeps the tree well formed, and changes nothing unless it
   * may create. A failure names one of the parts.
   */
  lemma {:induction false} WalkMeaning(t: Tree, parts: seq<Str>, cwd: Path, create: bool)
    requires WellFormed(t) && cwd in t.dirs
    ensures var r := Walk(t, parts, cwd, create);
            && WellFormed(r.0) && r.0.files == t.files && t.dirs <= r.0.dirs
            && (!create ==> r.0 == t)
            && (r.1.Ok? ==> r.1.value == cwd + Present(parts) && r.1.value in r.0.dirs)
            && (r.1.Err? ==> r.1.error.part in parts && r.1.error.part != [])
            && (r.1.Err? ==> (r.1.error.Missing? <==> !create))
    decreases |parts|
  {
    if parts != [] {
      var p := parts[0];
      assert forall x :: x in parts[1..] ==> x in parts;
      if p == [] {
        WalkMeaning(t, parts[1..], cwd, create);
      } else if cwd + [p] in t.dirs {
        WalkMeaning(t, parts[1..], cwd + [p], create);
        assert cwd + [p] + Present(parts[1..]) == cwd + Present(parts);
      } else if create {
        MakeDirWellFormed(t, cwd, p);
        if MakeDirIn(t, cwd, p).Some? {
          WalkMeaning(MakeDirIn(t, cwd, p).value, parts[1..], cwd + [p], create);
          assert cwd + [p] + Present(parts[1..]) == cwd + Present(parts);
        }
      }
    }
  }

  /** A walk to a directory that exists makes nothing and ends there, whether or not it may create. */
  lemma {:induction false} WalkExisting(t: Tree, parts: seq<Str>, cwd: Path, create: bool)
    requires WellFormed(t) && cwd + Present(parts) in t.dirs
    ensures Walk(t, parts, cwd, create) == (t, Ok(cwd + Present(parts)))
    decreases |parts|
  {
    if parts == [] {
      assert cwd + Present(parts) == cwd;
    } else if parts[0] == [] {
      WalkExisting(t, parts[1..], cwd, create);
    } else {
      var p := parts[0];
      assert cwd + Present(parts) == cwd + [p] + Present(parts[1..]);
      Ancestors(t, cwd + Present(parts), |cwd| + 1);
      assert (cwd + Present(parts))[..|cwd| + 1] == cwd + [p];
      WalkExisting(t, parts[1..], cwd + [p], create);
    }
  }

  /**
   * Without creating, a walk succeeds exactly when the directory the non-empty parts name
   * exists.
   */
  lemma {:induction false} WalkFinds(t: Tree, parts: seq<Str>, cwd: Path)
    requires WellFormed(t) && cwd in t.dirs
    ensures Walk(t, parts, cwd, false).1.Ok? <==> cwd + Present(parts) in t.dirs
    decreases |parts|
  {
    if parts != [] {
      var p := parts[0];
      if p == [] {
        WalkFinds(t, parts[1..], cwd);
        assert Present(parts) == Present(parts[1..]);
      } else {
        assert cwd + Present(parts) == cwd + [p] + Present(parts[1..]);
        if cwd + [p] in t.dirs {
          WalkFinds(t, parts[1..], cwd + [p]);
          assert Walk(t, parts, cwd, false) == Walk(t, parts[1..], cwd + [p], false);
        } else if cwd + Present(parts) in t.dirs {
          Ancestors(t, cwd + Present(parts), |cwd| + 1);
        }
      }
    } else {
      assert cwd + Present(parts) == cwd;
    }
  }
}
