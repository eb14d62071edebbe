/**
 * `SDCardStore`: the framework's file store on the SD card. It keeps the card's volume
 * between calls, walks a path from the root directory (making missing directories in the
 * creating modes), and reads, appends and writes whole files.
 *
 * The behaviour is stated once as functions over a `Store` value, and the class's methods,
 * which update their fields as the source does, are proved to follow those functions.
 */
module SdStore {
  import opened Wrappers
  import opened Bytes
  import opened Text
  import Utf8
  import opened SdFileSystem

  /** `CREATE_MODES`: the modes in which `open_file` makes the directories it does not find. */
  const CreateModes: seq<Mode> :=
    [ReadWriteCreateOrTruncate, ReadWriteCreate, ReadWriteCreateOrAppend, ReadWriteAppend]

  /** A path is split on both kinds of slash. */
  const Separators: set<char> := {'/', '\\'}

  /** The handle of volume 0, the only volume the store opens. */
  datatype RawVolume = RawVolume

  /** The store's errors, with the path and the part of it they name. */
  datatype Error =
    | OpenVolume
    | Open(fullPath: Str, part: Str)
    | MakeDir(fullPath: Str, part: Str)
    | ChangeDir(fullPath: Str, part: Str)
    | SeekFile(fullPath: Str, offset: nat)
    | DecodeUtf8(fullPath: Str)

  /**
   * Everything the store's calls read and change: the card's contents, the files the volume
   * manager holds open, the cached volume, the `card_installed` flag, and the card's answers
   * to the open-volume requests still to come.
   */
  datatype Store = Store(tree: Tree, openFiles: set<Path>, rawVolume: Option<RawVolume>,
                         cardInstalled: bool, answers: seq<bool>)

  /** The invariant of the card and the volume manager: a well-formed tree, open files exist. */
  ghost predicate Consistent(s: Store)
  {
    WellFormed(s.tree) && forall p :: p in s.openFiles ==> p in s.tree.files
  }

  // ---------------------------------------------------------------------------------------
  // Paths

  /** The parts of a path; there is always at least one. */
  function Parts(path: Str): (parts: seq<Str>)
    ensures parts != []
  {
    Split(path, Separators)
  }

  /** The parts walked as directories: all but the last. */
  function DirParts(path: Str): seq<Str>
  {
    Parts(path)[..|Parts(path)| - 1]
  }

  /** The last part, which always names the file and is never entered as a directory. */
  function FileName(path: Str): Str
  {
    Parts(path)[|Parts(path)| - 1]
  }

  /** Where a path leads on the card: its non-empty directory parts, then the file name. */
  function FilePath(path: Str): Path
  {
    Present(DirParts(path)) + [FileName(path)]
  }

  /** The path with every backslash turned into a forward slash. */
  function Slashed(path: Str): (r: Str)
    ensures |r| == |path| && '\\' !in r
    ensures forall i :: 0 <= i < |path| ==> r[i] == if path[i] == '\\' then '/' else path[i]
    decreases |path|
  {
    if path == [] then [] else [if path[0] == '\\' then '/' else path[0]] + Slashed(path[1..])
  }

  /**
   * The file name holds no slash of either kind, and the parts joined by `/` give the path
   * back with its backslashes turned into `/`; a path without backslashes comes back as it is.
   */
  lemma PathParts(path: Str)
    ensures Unseparated(FileName(path), Separators)
    ensures forall i :: 0 <= i < |DirParts(path)| ==> Unseparated(DirParts(path)[i], Separators)
    ensures Join(Parts(path), '/') == path || '\\' in path
    ensures Join(Parts(path), '/') == Slashed(path)
  {
    SplitSlashed(path);
    JoinSplit(Slashed(path), '/');
    if '\\' !in path {
      JoinSplit(path, '/');
      assert Split(path, Separators) == Split(path, {'/'}) by {
        SplitOnSlash(path);
      }
    }
  }

  /** Splitting on both slashes is splitting on `/` once the backslashes are turned into `/`. */
  lemma {:induction false} SplitSlashed(path: Str)
    ensures Split(path, Separators) == Split(Slashed(path), {'/'})
    decreases |path|
  {
    if path != [] {
      SplitSlashed(path[1..]);
      assert Slashed(path)[1..] == Slashed(path[1..]);
    }
  }

  /** Without backslashes, splitting on both slashes is splitting on `/`. */
  lemma {:induction false} SplitOnSlash(path: Str)
    requires '\\' !in path
    ensures Split(path, Separators) == Split(path, {'/'})
    decreases |path|
  {
    if path != [] {
      assert '\\' !in path[1..] by {
        assert forall c :: c in path[1..] ==> c in path;
      }
      SplitOnSlash(path[1..]);
      assert path[0] in Separators <==> path[0] in {'/'} by {
        assert path[0] in path;
      }
    }
  }

  // ---------------------------------------------------------------------------------------
  // The volume

  /** `new`: up to `tries` open-volume requests, stopping at the first the card answers. */
  function Mounted(answers: seq<bool>, tries: nat): (r: (Option<RawVolume>, seq<bool>))
    decreases tries
  {
    if tries == 0 then (None, answers)
    else if Answers(answers) then (Some(RawVolume), answers[1..])
    else Mounted(Remaining(answers), tries - 1)
  }

  /** A volume is mounted exactly when the card answers one of the first `tries` requests. */
  lemma {:induction false} MountedMeaning(answers: seq<bool>, tries: nat)
    ensures Mounted(answers, tries).0.Some? <==> exists i :: 0 <= i < tries && i < |answers| && answers[i]
    decreases tries
  {
    if tries > 0 && !Answers(answers) {
      var rest := Remaining(answers);
      MountedMeaning(rest, tries - 1);
      if exists i :: 0 <= i < tries && i < |answers| && answers[i] {
        var i :| 0 <= i < tries && i < |answers| && answers[i];
        assert i != 0;
        assert rest[i - 1] == answers[i];
      }
      if exists j :: 0 <= j < tries - 1 && j < |rest| && rest[j] {
        var j :| 0 <= j < tries - 1 && j < |rest| && rest[j];
        assert answers[j + 1] == rest[j];
      }
    }
  }

  /** The store `new` builds on a card: nothing open, and a volume after at most five tries. */
  function Started(card: Tree, answers: seq<bool>): Store
  {
    var m := Mounted(answers, 5);
    Store(card, {}, m.0, m.0.Some?, m.1)
  }

  /** `card_installed` starts true exactly when one of the five tries succeeds. */
  lemma StartedInstalled(card: Tree, answers: seq<bool>)
    ensures Started(card, answers).cardInstalled <==> exists i :: 0 <= i < 5 && i < |answers| && answers[i]
    ensures Started(card, answers).cardInstalled <==> Started(card, answers).rawVolume.Some?
    ensures WellFormed(card) ==> Consistent(Started(card, answers))
  {
    MountedMeaning(answers, 5);
  }

  /**
   * `take_volume`: the cached volume, marking the card installed; otherwise a fresh request
   * to the card, which leaves `card_installed` as it was.
   */
  function TakenVolume(s: Store): (r: (Store, Result<RawVolume, Error>))
  {
    if s.rawVolume.Some? then (s.(rawVolume := None, cardInstalled := true), Ok(s.rawVolume.value))
    else if Answers(s.answers) then (s.(answers := s.answers[1..]), Ok(RawVolume))
    else (s.(answers := Remaining(s.answers)), Err(OpenVolume))
  }

  /** Taking the volume empties the cache and fails only when there is none and the card is silent. */
  lemma TakenVolumeMeaning(s: Store)
    ensures var (s', r) := TakenVolume(s);
            && s'.rawVolume.None? && s'.tree == s.tree && s'.openFiles == s.openFiles
            && (r.Err? <==> s.rawVolume.None? && !Answers(s.answers))
            && (r.Err? ==> r.error == OpenVolume)
            && (s.rawVolume.Some? ==> s'.cardInstalled && s'.answers == s.answers)
            && (s.rawVolume.None? ==> s'.cardInstalled == s.cardInstalled)
  {
  }

  /** `return_volume`: the volume goes back into the cache. */
  function Returned(s: Store, v: RawVolume): (s': Store)
    ensures s'.rawVolume == Some(v) && s' == s.(rawVolume := s'.rawVolume)
  {
    s.(rawVolume := Some(v))
  }

  /** `open_volume`: take the volume and give it straight back. */
  function VolumeOpened(s: Store): (r: (Store, Result<(), Error>))
  {
    var (s1, taken) := TakenVolume(s);
    if taken.Err? then (s1, Err(taken.error)) else (Returned(s1, taken.value), Ok(()))
  }

  /** After `open_volume` the volume is cached exactly when the call succeeded. */
  lemma VolumeOpenedMeaning(s: Store)
    ensures VolumeOpened(s).0.rawVolume.Some? <==> VolumeOpened(s).1.Ok?
    ensures VolumeOpened(s).1.Ok? <==> s.rawVolume.Some? || Answers(s.answers)
  {
  }

  // ---------------------------------------------------------------------------------------
  // Opening a file

  /** The error a failed walk is reported as. */
  function WalkError(path: Str, e: WalkFailure): Error
  {
    match e
    case Missing(part) => ChangeDir(path, part)
    case Unmakeable(part) => MakeDir(path, part)
  }

  /**
   * `open_file`: take the volume, walk the directory parts from the root (making missing
   * directories in `CREATE_MODES`), open the file in the last directory reached and give
   * the volume back, whatever happened after it was taken.
   */
  function FileOpened(s: Store, path: Str, mode: Mode): (r: (Store, Result<RawFile, Error>))
    ensures r.1.Ok? ==> r.1.value.path in r.0.tree.files
    ensures r.1.Ok? ==> r.1.value.position <= |r.0.tree.files[r.1.value.path]|
  {
    var (s1, taken) := TakenVolume(s);
    if taken.Err? then (s1, Err(taken.error))
    else
      var (t, walked) := Walk(s1.tree, DirParts(path), [], mode in CreateModes);
      var s2 := Returned(s1.(tree := t), taken.value);
      if walked.Err? then (s2, Err(WalkError(path, walked.error)))
      else
        match OpenFileIn(t, s2.openFiles, walked.value, FileName(path), mode)
        case None => (s2, Err(Open(path, FileName(path))))
        case Some((t', f)) => (s2.(tree := t', openFiles := s2.openFiles + {f.path}), Ok(f))
  }

  /** `open_file` always gives the volume back, except when it could not take one. */
  lemma FileOpenedReturnsVolume(s: Store, path: Str, mode: Mode)
    ensures FileOpened(s, path, mode).0.rawVolume.Some? <==> FileOpened(s, path, mode).1 != Err(OpenVolume)
    ensures FileOpened(s, path, mode).1 == Err(OpenVolume) ==> FileOpened(s, path, mode).0 == TakenVolume(s).0
  {
  }

  /** The bytes a file opened in `mode` starts with: its old bytes, or none if new or truncated. */
  function Opening(s: Store, path: Str, mode: Mode): seq<byte>
  {
    if FilePath(path) in s.tree.files && !Truncates(mode) then s.tree.files[FilePath(path)] else []
  }

  /**
   * What a successful `open_file` did: the volume was there, the path's file existed or the
   * mode creates it, it was not open before and is open now, its bytes are the ones it
   * starts with, and no other file changed.
   */
  ghost predicate Opens(s: Store, s': Store, f: RawFile, path: Str, mode: Mode)
  {
    var p := FilePath(path);
    && TakenVolume(s).1.Ok? && ValidName(FileName(path)) && (p !in s.tree.files ==> Creates(mode))
    && f == RawFile(p, mode, if Appends(mode) then |Opening(s, path, mode)| else 0)
    && p !in s.openFiles && s'.openFiles == s.openFiles + {p}
    && s'.tree.files == s.tree.files[p := Opening(s, path, mode)]
  }

  /**
   * `open_file` keeps the store consistent; directories are only ever added, and only in
   * the creating modes; a failure leaves the files and the open handles as they were.
   */
  lemma FileOpenedMeaning(s: Store, path: Str, mode: Mode)
    requires Consistent(s)
    ensures var (s', r) := FileOpened(s, path, mode);
            && Consistent(s') && s.tree.dirs <= s'.tree.dirs
            && (mode !in CreateModes ==> s'.tree.dirs == s.tree.dirs)
            && (r.Err? ==> s'.openFiles == s.openFiles && s'.tree.files == s.tree.files)
            && (r.Ok? ==> Opens(s, s', r.value, path, mode))
  {
    var (s1, taken) := TakenVolume(s);
    if taken.Ok? {
      var create := mode in CreateModes;
      WalkMeaning(s1.tree, DirParts(path), [], create);
      var (t, walked) := Walk(s1.tree, DirParts(path), [], create);
      if walked.Ok? {
        var s2 := Returned(s1.(tree := t), taken.value);
        assert walked.value == Present(DirParts(path));
        OpenedInDir(s, s2, t, path, mode);
      }
    }
  }

  /** The last step of `open_file`, once the walk has reached the path's directory in the tree `t`. */
  lemma OpenedInDir(s: Store, s2: Store, t: Tree, path: Str, mode: Mode)
    requires Consistent(s) && TakenVolume(s).1.Ok? && WellFormed(t) && Present(DirParts(path)) in t.dirs
    requires t.files == s.tree.files && s.tree.dirs <= t.dirs && (mode !in CreateModes ==> t.dirs == s.tree.dirs)
    requires s2.tree == t && s2.openFiles == s.openFiles
    ensures var r := OpenFileIn(t, s2.openFiles, Present(DirParts(path)), FileName(path), mode);
            && (r.Some? ==> var s3 := s2.(tree := r.value.0, openFiles := s2.openFiles + {r.value.1.path});
                            Consistent(s3) && s.tree.dirs <= s3.tree.dirs &&
                            (mode !in CreateModes ==> s3.tree.dirs == s.tree.dirs) &&
                            Opens(s, s3, r.value.1, path, mode))
            && (r.None? ==> Consistent(s2))
  {
    OpenFileInMeaning(t, s2.openFiles, Present(DirParts(path)), FileName(path), mode);
  }

  /** The file of a path whose directories exist opens in any mode but `ReadWriteCreate`. */
  lemma FileOpenedSucceeds(s: Store, path: Str, mode: Mode)
    requires Consistent(s) && TakenVolume(s).1.Ok? && ValidName(FileName(path))
    requires FilePath(path) in s.tree.files && FilePath(path) !in s.openFiles && mode != ReadWriteCreate
    ensures FileOpened(s, path, mode).1.Ok?
  {
    var s1 := TakenVolume(s).0;
    assert Parent(FilePath(path)) == [] + Present(DirParts(path));
    WalkExisting(s1.tree, DirParts(path), [], mode in CreateModes);
    OpenFileInMeaning(s1.tree, s1.openFiles, Present(DirParts(path)), FileName(path), mode);
  }

  /** A file held open does not open again, and the attempt changes nothing but the volume's round trip. */
  lemma FileOpenedHeld(s: Store, path: Str, mode: Mode)
    requires Consistent(s) && TakenVolume(s).1.Ok? && FilePath(path) in s.openFiles
    ensures FileOpened(s, path, mode) == (Returned(TakenVolume(s).0, RawVolume), Err(Open(path, FileName(path))))
  {
    var s1 := TakenVolume(s).0;
    assert Parent(FilePath(path)) == [] + Present(DirParts(path));
    WalkExisting(s1.tree, DirParts(path), [], mode in CreateModes);
    assert s1.(tree := s1.tree) == s1;
    assert TakenVolume(s).1.value == RawVolume;
    assert OpenFileIn(s1.tree, s1.openFiles, [] + Present(DirParts(path)), FileName(path), mode).None?;
  }

  /**
   * A missing directory on the way is an error naming it exactly when the mode does not
   * create: in `CREATE_MODES`, which include `ReadWriteAppend`, no `ChangeDir` error arises.
   */
  lemma FileOpenedChangeDir(s: Store, path: Str, mode: Mode)
    requires Consistent(s) && TakenVolume(s).1.Ok?
    ensures FileOpened(s, path, mode).1.Err? && FileOpened(s, path, mode).1.error.ChangeDir? <==>
              mode !in CreateModes && Present(DirParts(path)) !in s.tree.dirs
    ensures FileOpened(s, path, mode).1.Err? && FileOpened(s, path, mode).1.error.ChangeDir? ==>
              FileOpened(s, path, mode).1.error.part in DirParts(path) && FileOpened(s, path, mode).1.error.part != []
  {
    var s1 := TakenVolume(s).0;
    var create := mode in CreateModes;
    WalkMeaning(s1.tree, DirParts(path), [], create);
    assert [] + Present(DirParts(path)) == Present(DirParts(path));
    if !create {
      WalkFinds(s1.tree, DirParts(path), []);
    }
  }

  /** The file handle goes back to the volume manager. */
  function Closed(s: Store, f: RawFile): Store
  {
    s.(openFiles := s.openFiles - {f.path})
  }

  /** Handing back the handle `open_file` took leaves the handles as they were before, and the store consistent. */
  lemma ClosedConsistent(s: Store, s1: Store, f: RawFile)
    requires Consistent(s1) && f.path !in s.openFiles && s1.openFiles == s.openFiles + {f.path}
    ensures Consistent(Closed(s1, f)) && Closed(s1, f).openFiles == s.openFiles
  {
    assert s1.openFiles - {f.path} == s.openFiles;
  }

  /** A file's bytes replaced twice hold the second replacement. */
  lemma ReplacedTwice(files: map<Path, seq<byte>>, p: Path, a: seq<byte>, b: seq<byte>)
    ensures files[p := a][p := b] == files[p := b]
  {
  }

  /** The card after a file's bytes were replaced. */
  function Stored(s: Store, p: Path, data: seq<byte>): Store
  {
    s.(tree := s.tree.(files := s.tree.files[p := data]))
  }

  /** Replacing an existing file's bytes keeps the store consistent. */
  lemma StoredConsistent(s: Store, p: Path, data: seq<byte>)
    requires Consistent(s) && p in s.tree.files
    ensures Consistent(Stored(s, p, data)) && Stored(s, p, data).tree.dirs == s.tree.dirs
  {
  }

  /** The bytes of the file `FilePath(path)` before a call, none when it does not exist. */
  function Before(s: Store, path: Str): seq<byte>
  {
    if FilePath(path) in s.tree.files then s.tree.files[FilePath(path)] else []
  }

  /** A name without slashes is a path of one part, the file itself in the root directory. */
  lemma SinglePart(name: Str)
    requires Unseparated(name, Separators)
    ensures Parts(name) == [name] && DirParts(name) == [] && FileName(name) == name
    ensures FilePath(name) == [name]
  {
    SplitJoin([name], '/', Separators);
    assert Join([name], '/') == name;
  }

  // ---------------------------------------------------------------------------------------
  // Reading

  /** `inner_read_file_bytes`: open, read a buffer as long as the file from the open position, close. */
  function BytesRead(s: Store, path: Str, mode: Mode): (r: (Store, Result<seq<byte>, Error>))
  {
    var (s1, handle) := FileOpened(s, path, mode);
    if handle.Err? then (s1, Err(handle.error))
    else (Closed(s1, handle.value), Ok(ReadInto(s1.tree.files[handle.value.path], handle.value.position)))
  }

  /** Every read gives back the handle it opened, and its buffer is as long as the file. */
  lemma BytesReadCloses(s: Store, path: Str, mode: Mode)
    requires Consistent(s)
    ensures var (s', r) := BytesRead(s, path, mode);
            && Consistent(s') && s'.openFiles == s.openFiles
            && (r.Ok? ==> FilePath(path) in s'.tree.files && |r.value| == |s'.tree.files[FilePath(path)]|)
  {
    FileOpenedMeaning(s, path, mode);
    var (s1, handle) := FileOpened(s, path, mode);
    if handle.Ok? {
      ClosedConsistent(s, s1, handle.value);
    }
  }

  /**
   * `read_file_bytes`: the read-only read succeeds exactly when the volume can be taken and
   * the path's file exists and is not held open; it then gives the file's bytes, and it
   * never changes the card or the files held open.
   */
  lemma ReadOnlyMeaning(s: Store, path: Str)
    requires Consistent(s)
    ensures var (s', r) := BytesRead(s, path, ReadOnly);
            && s'.tree == s.tree && s'.openFiles == s.openFiles
            && (r.Ok? <==> TakenVolume(s).1.Ok? && FilePath(path) in s.tree.files &&
                           FilePath(path) !in s.openFiles && ValidName(FileName(path)))
            && (r.Ok? ==> r.value == s.tree.files[FilePath(path)])
  {
    FileOpenedMeaning(s, path, ReadOnly);
    var (s1, handle) := FileOpened(s, path, ReadOnly);
    if TakenVolume(s).1.Ok? && FilePath(path) in s.tree.files && FilePath(path) !in s.openFiles && ValidName(FileName(path)) {
      FileOpenedSucceeds(s, path, ReadOnly);
    }
    if handle.Ok? {
      assert s1.tree.files == s.tree.files;
      ReadFromStart(s.tree.files[FilePath(path)]);
    }
  }

  /** A file's bytes as a string, or `DecodeUtf8` when they are not UTF-8. */
  function Decoded(path: Str, r: Result<seq<byte>, Error>): (d: Result<Str, Error>)
    ensures d.Ok? <==> r.Ok? && Utf8.Valid(r.value)
    ensures d.Err? && r.Ok? ==> d.error == DecodeUtf8(path)
    ensures r.Err? ==> d == Err(r.error)
  {
    if r.Err? then Err(r.error)
    else if Utf8.Valid(r.value) then Ok(Utf8.Chars(r.value))
    else Err(DecodeUtf8(path))
  }

  /** `read_file_str`. */
  function StrRead(s: Store, path: Str): (r: (Store, Result<Str, Error>))
  {
    var (s1, bytes) := BytesRead(s, path, ReadOnly);
    (s1, Decoded(path, bytes))
  }

  /** `read_create_bytes`: a read-only read, and when it fails a read in `ReadWriteCreateOrAppend`. */
  function CreatedRead(s: Store, path: Str): (r: (Store, Result<seq<byte>, Error>))
  {
    var (s1, first) := BytesRead(s, path, ReadOnly);
    if first.Ok? then (s1, first) else BytesRead(s1, path, ReadWriteCreateOrAppend)
  }

  /**
   * `read_create_bytes` gives an existing file's bytes when the first read succeeds, and
   * otherwise a buffer as long as the file; a file that did not exist is made, empty, and
   * gives no bytes.
   */
  lemma CreatedReadMeaning(s: Store, path: Str)
    requires Consistent(s)
    ensures var (s', r) := CreatedRead(s, path);
            && Consistent(s') && s'.openFiles == s.openFiles
            && (BytesRead(s, path, ReadOnly).1.Ok? ==>
                  FilePath(path) in s.tree.files && r.Ok? && r.value == s.tree.files[FilePath(path)] && s'.tree == s.tree)
            && (r.Ok? ==> FilePath(path) in s'.tree.files && |r.value| == |s'.tree.files[FilePath(path)]|)
            && (r.Ok? && FilePath(path) !in s.tree.files ==> r.value == [] && s'.tree.files[FilePath(path)] == [])
  {
    ReadOnlyMeaning(s, path);
    BytesReadCloses(s, path, ReadOnly);
    var (s1, first) := BytesRead(s, path, ReadOnly);
    if first.Err? {
      BytesReadCloses(s1, path, ReadWriteCreateOrAppend);
      FileOpenedMeaning(s1, path, ReadWriteCreateOrAppend);
    }
  }

  /**
   * The fallback read starts at the end of the file: when the read-only read failed only
   * because the card was silent and the second request is answered, an existing file's
   * bytes come back as zeros.
   */
  lemma CreatedReadZeros(s: Store, path: Str)
    requires Consistent(s) && s.rawVolume.None? && !Answers(s.answers) && Answers(Remaining(s.answers))
    requires FilePath(path) in s.tree.files && FilePath(path) !in s.openFiles && ValidName(FileName(path))
    ensures CreatedRead(s, path).1 == Ok(seq(|s.tree.files[FilePath(path)]|, i => 0))
  {
    var s1 := TakenVolume(s).0;
    assert BytesRead(s, path, ReadOnly) == (s1, Err(OpenVolume));
    FileOpenedSucceeds(s1, path, ReadWriteCreateOrAppend);
    FileOpenedMeaning(s1, path, ReadWriteCreateOrAppend);
    ReadFromEnd(s.tree.files[FilePath(path)]);
  }

  /** `read_create_str`. */
  function CreatedStrRead(s: Store, path: Str): (r: (Store, Result<Str, Error>))
  {
    var (s1, bytes) := CreatedRead(s, path);
    (s1, Decoded(path, bytes))
  }

  // ---------------------------------------------------------------------------------------
  // Writing

  /** `append_bytes`: open in `ReadWriteCreateOrAppend`, write at the end, close; the result is the old length. */
  function BytesAppended(s: Store, path: Str, bytes: seq<byte>): (r: (Store, Result<nat, Error>))
  {
    var (s1, handle) := FileOpened(s, path, ReadWriteCreateOrAppend);
    if handle.Err? then (s1, Err(handle.error))
    else
      var f := handle.value;
      var data := s1.tree.files[f.path];
      (Closed(Stored(s1, f.path, WriteAt(data, f.position, bytes)), f), Ok(|data|))
  }

  /** An append returns the file's length before it and leaves the old bytes followed by the new. */
  lemma BytesAppendedMeaning(s: Store, path: Str, bytes: seq<byte>)
    requires Consistent(s)
    ensures var (s', r) := BytesAppended(s, path, bytes);
            && Consistent(s') && s'.openFiles == s.openFiles
            && (r.Ok? ==> r.value == |Before(s, path)| &&
                          s'.tree.files == s.tree.files[FilePath(path) := Before(s, path) + bytes])
            && (r.Err? ==> s'.tree.files == s.tree.files)
  {
    FileOpenedMeaning(s, path, ReadWriteCreateOrAppend);
    var (s1, handle) := FileOpened(s, path, ReadWriteCreateOrAppend);
    if handle.Ok? {
      var f := handle.value;
      var data := s1.tree.files[f.path];
      assert f.path == FilePath(path) && data == Before(s, path) && f.position == |data|;
      WriteAtEnd(data, bytes);
      ReplacedTwice(s.tree.files, f.path, data, data + bytes);
      StoredConsistent(s1, f.path, data + bytes);
      ClosedConsistent(s, Stored(s1, f.path, data + bytes), f);
    }
  }

  /** `create_write_file_bytes`: open in `ReadWriteCreateOrTruncate`, write, close. */
  function BytesCreatedWritten(s: Store, path: Str, bytes: seq<byte>): (r: (Store, Result<(), Error>))
  {
    var (s1, handle) := FileOpened(s, path, ReadWriteCreateOrTruncate);
    if handle.Err? then (s1, Err(handle.error))
    else
      var f := handle.value;
      (Closed(Stored(s1, f.path, WriteAt(s1.tree.files[f.path], f.position, bytes)), f), Ok(()))
  }

  /** After `create_write_file_bytes` the file holds exactly the bytes written. */
  lemma BytesCreatedWrittenMeaning(s: Store, path: Str, bytes: seq<byte>)
    requires Consistent(s)
    ensures var (s', r) := BytesCreatedWritten(s, path, bytes);
            && Consistent(s') && s'.openFiles == s.openFiles
            && (r.Ok? ==> s'.tree.files == s.tree.files[FilePath(path) := bytes])
            && (r.Err? ==> s'.tree.files == s.tree.files)
  {
    FileOpenedMeaning(s, path, ReadWriteCreateOrTruncate);
    var (s1, handle) := FileOpened(s, path, ReadWriteCreateOrTruncate);
    if handle.Ok? {
      var f := handle.value;
      assert f.path == FilePath(path) && s1.tree.files[f.path] == [] && f.position == 0;
      assert WriteAt([], 0, bytes) == bytes;
      ReplacedTwice(s.tree.files, f.path, [], bytes);
      StoredConsistent(s1, f.path, bytes);
      ClosedConsistent(s, Stored(s1, f.path, bytes), f);
    }
  }

  /** `create_file`: open in `ReadWriteCreateOrTruncate` and close. */
  function FileCreated(s: Store, path: Str): (r: (Store, Result<(), Error>))
  {
    var (s1, handle) := FileOpened(s, path, ReadWriteCreateOrTruncate);
    if handle.Err? then (s1, Err(handle.error)) else (Closed(s1, handle.value), Ok(()))
  }

  /** After `create_file` the file exists and is empty. */
  lemma FileCreatedMeaning(s: Store, path: Str)
    requires Consistent(s)
    ensures var (s', r) := FileCreated(s, path);
            && Consistent(s') && s'.openFiles == s.openFiles
            && (r.Ok? ==> s'.tree.files == s.tree.files[FilePath(path) := []])
            && (r.Err? ==> s'.tree.files == s.tree.files)
  {
    FileOpenedMeaning(s, path, ReadWriteCreateOrTruncate);
    var (s1, handle) := FileOpened(s, path, ReadWriteCreateOrTruncate);
    if handle.Ok? {
      ClosedConsistent(s, s1, handle.value);
    }
  }

  /** The seek, write and close of `write_file_bytes` on an opened file. */
  function SeekWritten(s: Store, path: Str, f: RawFile, offset: nat, bytes: seq<byte>): (r: (Store, Result<(), Error>))
    requires f.path in s.tree.files
  {
    var data := s.tree.files[f.path];
    if offset > |data| then (Closed(s, f), Err(SeekFile(path, offset)))
    else (Closed(Stored(s, f.path, WriteAt(data, offset, bytes)), f), Ok(()))
  }

  /**
   * `write_file_bytes` as the source has it: open in `ReadWriteAppend`; when `only_if_new`
   * and that open succeeds, return at once, without closing the file; when it fails, open
   * in `ReadWriteCreateOrAppend`; then seek, write and close.
   */
  function BytesWrittenAsWritten(s: Store, path: Str, offset: nat, bytes: seq<byte>, onlyIfNew: bool): (r: (Store, Result<(), Error>))
  {
    var (s1, first) := FileOpened(s, path, ReadWriteAppend);
    if first.Ok? && onlyIfNew then (s1, Ok(()))
    else
      var (s2, second) := if first.Ok? then (s1, first) else FileOpened(s1, path, ReadWriteCreateOrAppend);
      if second.Err? then (s2, Err(second.error)) else SeekWritten(s2, path, second.value, offset, bytes)
  }

  /** The store of the two lemmas below: one empty file `a`, the volume cached. */
  function OneFile(): Store
  {
    Store(Tree({[]}, map[["a"] := []]), {}, Some(RawVolume), true, [])
  }

  /**
   * The early return leaves the file held open, so the same call on the same file fails the
   * second time, where it should succeed again without writing.
   */
  lemma WriteOnlyIfNewLeaks()
    ensures var (s1, r1) := BytesWrittenAsWritten(OneFile(), "a", 0, [1], true);
            && r1 == Ok(()) && ["a"] in s1.openFiles
            && BytesWrittenAsWritten(s1, "a", 0, [1], true).1 == Err(Open("a", "a"))
  {
    var s := OneFile();
    assert Parent(["a"]) == [];
    SinglePart("a");
    FileOpenedSucceeds(s, "a", ReadWriteAppend);
    FileOpenedMeaning(s, "a", ReadWriteAppend);
    FileOpenedReturnsVolume(s, "a", ReadWriteAppend);
    var s1 := FileOpened(s, "a", ReadWriteAppend).0;
    FileOpenedHeld(s1, "a", ReadWriteAppend);
    var s2 := Returned(TakenVolume(s1).0, RawVolume);
    FileOpenedHeld(s2, "a", ReadWriteCreateOrAppend);
  }

  /** `write_file_bytes` with the file closed again on the early return. */
  function BytesWritten(s: Store, path: Str, offset: nat, bytes: seq<byte>, onlyIfNew: bool): (r: (Store, Result<(), Error>))
  {
    var (s1, first) := FileOpened(s, path, ReadWriteAppend);
    if first.Ok? && onlyIfNew then (Closed(s1, first.value), Ok(()))
    else
      var (s2, second) := if first.Ok? then (s1, first) else FileOpened(s1, path, ReadWriteCreateOrAppend);
      if second.Err? then (s2, Err(second.error)) else SeekWritten(s2, path, second.value, offset, bytes)
  }

  /**
   * What `write_file_bytes` promises: no file held open afterwards and a consistent store;
   * with `only_if_new`, a file the first open finds keeps its bytes; otherwise a successful
   * write puts the bytes at `offset` of what was there, and an offset past the end is a
   * `SeekFile` error that leaves the file as it was opened.
   */
  ghost predicate Wrote(s: Store, s': Store, r: Result<(), Error>, path: Str, offset: nat, bytes: seq<byte>, kept: bool)
  {
    && Consistent(s') && s'.openFiles == s.openFiles
    && (kept ==> r.Ok? && s'.tree.files == s.tree.files)
    && (r.Ok? && !kept ==>
          offset <= |Before(s, path)| &&
          s'.tree.files == s.tree.files[FilePath(path) := WriteAt(Before(s, path), offset, bytes)])
    && (r.Err? && r.error.SeekFile? ==>
          offset > |Before(s, path)| && s'.tree.files == s.tree.files[FilePath(path) := Before(s, path)])
  }

  /** `write_file_bytes` keeps its promise; the file is kept exactly when `only_if_new` and the first open succeeds. */
  lemma BytesWrittenMeaning(s: Store, path: Str, offset: nat, bytes: seq<byte>, onlyIfNew: bool)
    requires Consistent(s)
    ensures var (s', r) := BytesWritten(s, path, offset, bytes, onlyIfNew);
            Wrote(s, s', r, path, offset, bytes, onlyIfNew && FileOpened(s, path, ReadWriteAppend).1.Ok?)
  {
    FileOpenedMeaning(s, path, ReadWriteAppend);
    if FileOpened(s, path, ReadWriteAppend).1.Ok? {
      WrittenAfterFirst(s, path, offset, bytes, onlyIfNew);
    } else {
      WrittenAfterRetry(s, path, offset, bytes, onlyIfNew);
    }
  }

  /** `write_file_bytes` when the `ReadWriteAppend` open succeeds. */
  lemma WrittenAfterFirst(s: Store, path: Str, offset: nat, bytes: seq<byte>, onlyIfNew: bool)
    requires Consistent(s) && FileOpened(s, path, ReadWriteAppend).1.Ok?
    ensures var (s', r) := BytesWritten(s, path, offset, bytes, onlyIfNew);
            Wrote(s, s', r, path, offset, bytes, onlyIfNew)
  {
    FileOpenedMeaning(s, path, ReadWriteAppend);
    var (s1, first) := FileOpened(s, path, ReadWriteAppend);
    var f := first.value;
    var data := s1.tree.files[f.path];
    assert f.path == FilePath(path) && data == Before(s, path) && s1.tree.files == s.tree.files;
    if onlyIfNew {
      ClosedConsistent(s, s1, f);
    } else if offset <= |data| {
      ReplacedTwice(s.tree.files, f.path, data, WriteAt(data, offset, bytes));
      StoredConsistent(s1, f.path, WriteAt(data, offset, bytes));
      ClosedConsistent(s, Stored(s1, f.path, WriteAt(data, offset, bytes)), f);
    } else {
      ClosedConsistent(s, s1, f);
    }
  }

  /** `write_file_bytes` when the `ReadWriteAppend` open fails and the `ReadWriteCreateOrAppend` one is tried. */
  lemma WrittenAfterRetry(s: Store, path: Str, offset: nat, bytes: seq<byte>, onlyIfNew: bool)
    requires Consistent(s) && FileOpened(s, path, ReadWriteAppend).1.Err?
    ensures var (s', r) := BytesWritten(s, path, offset, bytes, onlyIfNew);
            Wrote(s, s', r, path, offset, bytes, false)
  {
    FileOpenedMeaning(s, path, ReadWriteAppend);
    var s1 := FileOpened(s, path, ReadWriteAppend).0;
    FileOpenedMeaning(s1, path, ReadWriteCreateOrAppend);
    var (s2, second) := FileOpened(s1, path, ReadWriteCreateOrAppend);
    if second.Ok? {
      var f := second.value;
      var data := s2.tree.files[f.path];
      assert f.path == FilePath(path) && data == Before(s, path);
      if offset <= |data| {
        ReplacedTwice(s.tree.files, f.path, data, WriteAt(data, offset, bytes));
        StoredConsistent(s2, f.path, WriteAt(data, offset, bytes));
        ClosedConsistent(s, Stored(s2, f.path, WriteAt(data, offset, bytes)), f);
      } else {
        ClosedConsistent(s, s2, f);
      }
    }
  }

  /** With the file closed on the early return, the repeated call of the leak lemma succeeds. */
  lemma WriteOnlyIfNewRepeats()
    ensures var (s1, r1) := BytesWritten(OneFile(), "a", 0, [1], true);
            && r1 == Ok(()) && s1.openFiles == {}
            && BytesWritten(s1, "a", 0, [1], true).1 == Ok(())
  {
    var s := OneFile();
    assert Parent(["a"]) == [];
    SinglePart("a");
    FileOpenedSucceeds(s, "a", ReadWriteAppend);
    FileOpenedMeaning(s, "a", ReadWriteAppend);
    FileOpenedReturnsVolume(s, "a", ReadWriteAppend);
    var s1 := BytesWritten(s, "a", 0, [1], true).0;
    FileOpenedSucceeds(s1, "a", ReadWriteAppend);
  }

  // ---------------------------------------------------------------------------------------
  // The store object

  /** `SDCardStore`, its fields updated in place by its calls. */
  class SdCardStore {
    var tree: Tree
    var openFiles: set<Path>
    var rawVolume: Option<RawVolume>
    var cardInstalled: bool
    var answers: seq<bool>

    function State(): Store
      reads this
    {
      Store(tree, openFiles, rawVolume, cardInstalled, answers)
    }

    /** `new`: up to five open-volume requests; `card_installed` says whether one was answered. */
    constructor New(card: Tree, replies: seq<bool>)
      ensures State() == Started(card, replies)
    {
      var volume: Option<RawVolume> := None;
      var rest := replies;
      var i := 0;
      while i < 5
        invariant 0 <= i <= 5
        invariant volume.None? && Mounted(rest, 5 - i) == Mounted(replies, 5)
      {
        if Answers(rest) {
          volume := Some(RawVolume);
          rest := rest[1..];
          break;
        }
        volume := None;
        rest := Remaining(rest);
        i := i + 1;
      }
      tree := card;
      openFiles := {};
      rawVolume := volume;
      cardInstalled := volume.Some?;
      answers := rest;
    }

    /** `take_volume`. */
    method TakeVolume() returns (r: Result<RawVolume, Error>)
      modifies this
      ensures (State(), r) == TakenVolume(old(State()))
    {
      if rawVolume.Some? {
        r := Ok(rawVolume.value);
        rawVolume := None;
        cardInstalled := true;
        return;
      }
      if Answers(answers) {
        answers := answers[1..];
        r := Ok(RawVolume);
      } else {
        answers := Remaining(answers);
        r := Err(Error.OpenVolume);
      }
    }

    /** `return_volume`. */
    method ReturnVolume(v: RawVolume)
      modifies this
      ensures State() == Returned(old(State()), v)
    {
      rawVolume := Some(v);
    }

    /** `open_volume`. */
    method OpenVolume() returns (r: Result<(), Error>)
      modifies this
      ensures (State(), r) == VolumeOpened(old(State()))
    {
      var taken := TakeVolume();
      if taken.Err? {
        return Err(taken.error);
      }
      ReturnVolume(taken.value);
      r := Ok(());
    }

    /** `open_file`. */
    method OpenFile(path: Str, mode: Mode) returns (r: Result<RawFile, Error>)
      modifies this
      ensures (State(), r) == FileOpened(old(State()), path, mode)
    {
      var taken := TakeVolume();
      if taken.Err? {
        return Err(taken.error);
      }
      var parts := Split(path, Separators);
      var t, walked := WalkDirs(tree, parts, mode in CreateModes);
      tree := t;
      if walked.Err? {
        r := Err(WalkError(path, walked.error));
      } else {
        var name := parts[|parts| - 1];
        var handle := OpenFileIn(tree, openFiles, walked.value, name, mode);
        if handle.None? {
          r := Err(Open(path, name));
        } else {
          tree := handle.value.0;
          openFiles := openFiles + {handle.value.1.path};
          r := Ok(handle.value.1);
        }
      }
      ReturnVolume(taken.value);
    }

    /** Closing an open file hands its handle back. */
    method Close(f: RawFile)
      modifies this
      ensures State() == Closed(old(State()), f)
    {
      openFiles := openFiles - {f.path};
    }

    /** `inner_read_file_bytes`. */
    method InnerReadFileBytes(path: Str, mode: Mode) returns (r: Result<seq<byte>, Error>)
      modifies this
      ensures (State(), r) == BytesRead(old(State()), path, mode)
    {
      var handle := OpenFile(path, mode);
      if handle.Err? {
        return Err(handle.error);
      }
      var file := handle.value;
      var buffer := ReadInto(tree.files[file.path], file.position);
      Close(file);
      r := Ok(buffer);
    }

    /** `read_file_bytes`. */
    method ReadFileBytes(path: Str) returns (r: Result<seq<byte>, Error>)
      modifies this
      ensures (State(), r) == BytesRead(old(State()), path, ReadOnly)
    {
      r := InnerReadFileBytes(path, ReadOnly);
    }

    /** `read_file_str`. */
    method ReadFileStr(path: Str) returns (r: Result<Str, Error>)
      modifies this
      ensures (State(), r) == StrRead(old(State()), path)
    {
      var bytes := ReadFileBytes(path);
      r := Decoded(path, bytes);
    }

    /** `read_create_bytes`. */
    method ReadCreateBytes(path: Str) returns (r: Result<seq<byte>, Error>)
      modifies this
      ensures (State(), r) == CreatedRead(old(State()), path)
    {
      r := ReadFileBytes(path);
      if r.Err? {
        r := InnerReadFileBytes(path, ReadWriteCreateOrAppend);
      }
    }

    /** `read_create_str`. */
    method ReadCreateStr(path: Str) returns (r: Result<Str, Error>)
      modifies this
      ensures (State(), r) == CreatedStrRead(old(State()), path)
    {
      var bytes := ReadCreateBytes(path);
      r := Decoded(path, bytes);
    }

    /** Writing `bytes` at `position` of an open file. */
    method Write(f: RawFile, position: nat, bytes: seq<byte>)
      requires f.path in tree.files && position <= |tree.files[f.path]|
      modifies this
      ensures State() == Stored(old(State()), f.path, WriteAt(old(tree.files[f.path]), position, bytes))
    {
      tree := tree.(files := tree.files[f.path := WriteAt(tree.files[f.path], position, bytes)]);
    }

    /** `append_bytes`. */
    method AppendBytes(path: Str, bytes: seq<byte>) returns (r: Result<nat, Error>)
      modifies this
      ensures (State(), r) == BytesAppended(old(State()), path, bytes)
    {
      var handle := OpenFile(path, ReadWriteCreateOrAppend);
      if handle.Err? {
        return Err(handle.error);
      }
      var file := handle.value;
      var writeOffset := |tree.files[file.path]|;
      Write(file, file.position, bytes);
      Close(file);
      r := Ok(writeOffset);
    }

    /** `create_write_file_bytes`. */
    method CreateWriteFileBytes(path: Str, bytes: seq<byte>) returns (r: Result<(), Error>)
      modifies this
      ensures (State(), r) == BytesCreatedWritten(old(State()), path, bytes)
    {
      var handle := OpenFile(path, ReadWriteCreateOrTruncate);
      if handle.Err? {
        return Err(handle.error);
      }
      var file := handle.value;
      Write(file, file.position, bytes);
      Close(file);
      r := Ok(());
    }

    /** `write_file_bytes`, closing the file when it returns early. */
    method WriteFileBytes(path: Str, offset: nat, bytes: seq<byte>, onlyIfNew: bool) returns (r: Result<(), Error>)
      modifies this
      ensures (State(), r) == BytesWritten(old(State()), path, offset, bytes, onlyIfNew)
    {
      var handle := OpenFile(path, ReadWriteAppend);
      if handle.Ok? && onlyIfNew {
        Close(handle.value);
        return Ok(());
      }
      if handle.Err? {
        handle := OpenFile(path, ReadWriteCreateOrAppend);
        if handle.Err? {
          return Err(handle.error);
        }
      }
      var file := handle.value;
      if offset > |tree.files[file.path]| {
        r := Err(SeekFile(path, offset));
      } else {
        Write(file, offset, bytes);
        r := Ok(());
      }
      Close(file);
    }

    /** `create_file`. */
    method CreateFile(path: Str) returns (r: Result<(), Error>)
      modifies this
      ensures (State(), r) == FileCreated(old(State()), path)
    {
      var handle := OpenFile(path, ReadWriteCreateOrTruncate);
      if handle.Err? {
        return Err(handle.error);
      }
      Close(handle.value);
      r := Ok(());
    }
  }
}
