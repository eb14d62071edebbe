/**
 * `SDCard`: the simple blocking reader of whole files from the SD card. Each read takes the
 * card out of its `Option`, builds a volume manager around it, walks the path without ever
 * making a directory, and puts the card back only when the read succeeded.
 */
module SdReader {
  import opened Wrappers
  import opened Bytes
  import opened Text
  import Utf8
  import opened SdFileSystem

  /** The card handle: the contents of the card it reaches. */
  datatype Card = Card(tree: Tree)

  /** The reasons a read fails, with the path and the part they name. */
  datatype Error =
    | VolumeUnavailable
    | Folder(part: Str, path: Str)
    | FileUnopened(name: Str, path: Str)
    | NotUtf8(path: Str)

  /** A call either panics, at `take().unwrap()` when the card is gone, or returns a result. */
  datatype Outcome<T> = Panicked | Finished(result: Result<T, Error>)

  /** The reader's state: the card handle, if it is there, and the card's answers to open-volume requests. */
  datatype Reader = Reader(sdmmc: Option<Card>, answers: seq<bool>)

  /** A path is split on `/` only. */
  function Parts(path: Str): (parts: seq<Str>)
    ensures parts != []
  {
    Split(path, {'/'})
  }

  /** The directory parts of a path: all but the last. */
  function DirParts(path: Str): seq<Str>
  {
    Parts(path)[..|Parts(path)| - 1]
  }

  /** The last part, the file's name. */
  function FileName(path: Str): Str
  {
    Parts(path)[|Parts(path)| - 1]
  }

  /** Where a path leads: its non-empty directory parts, then the file name. */
  function FilePath(path: Str): Path
  {
    Present(DirParts(path)) + [FileName(path)]
  }

  /**
   * `read_file_bin`: take the card (panicking when it is gone), open volume 0, enter the
   * directories, open the file read-only and read a buffer as long as the file. Only the
   * successful read puts the card back.
   */
  function FileRead(s: Reader, path: Str): (r: (Reader, Outcome<seq<byte>>))
  {
    if s.sdmmc.None? then (s, Panicked)
    else
      var card := s.sdmmc.value;
      var taken := Reader(None, Remaining(s.answers));
      if !Answers(s.answers) then (taken, Finished(Err(VolumeUnavailable)))
      else
        var (t, walked) := Walk(card.tree, DirParts(path), [], false);
        if walked.Err? then (taken, Finished(Err(Folder(walked.error.part, path))))
        else
          match OpenFileIn(t, {}, walked.value, FileName(path), ReadOnly)
          case None => (taken, Finished(Err(FileUnopened(FileName(path), path))))
          case Some((_, f)) => (Reader(Some(card), Remaining(s.answers)), Finished(Ok(ReadInto(t.files[f.path], f.position))))
  }

  /**
   * A read on a well-formed card that has its handle never changes the card; it succeeds
   * exactly when the card answers and the path's file exists, and then gives the file's
   * bytes and keeps the card; a missing directory is a `Folder` error naming a part of the
   * path; after any error the card is gone, so the next call panics.
   */
  lemma FileReadMeaning(s: Reader, path: Str)
    requires s.sdmmc.Some? && WellFormed(s.sdmmc.value.tree)
    ensures var (s', r) := FileRead(s, path);
            var t := s.sdmmc.value.tree;
            && r.Finished?
            && (r.result.Ok? <==> Answers(s.answers) && FilePath(path) in t.files && ValidName(FileName(path)))
            && (r.result.Ok? ==> r.result.value == t.files[FilePath(path)] && s'.sdmmc == s.sdmmc)
            && (r.result.Err? && r.result.error.Folder? <==> Answers(s.answers) && Present(DirParts(path)) !in t.dirs)
            && (r.result.Err? && r.result.error.Folder? ==> r.result.error.part in DirParts(path) && r.result.error.part != [])
            && (r.result.Err? ==> s'.sdmmc.None? && FileRead(s', path).1 == Panicked)
  {
    var t := s.sdmmc.value.tree;
    if Answers(s.answers) {
      WalkMeaning(t, DirParts(path), [], false);
      WalkFinds(t, DirParts(path), []);
      assert [] + Present(DirParts(path)) == Present(DirParts(path));
      if FilePath(path) in t.files {
        assert Parent(FilePath(path)) == Present(DirParts(path));
      }
      var (t', walked) := Walk(t, DirParts(path), [], false);
      if walked.Ok? {
        OpenFileInMeaning(t, {}, walked.value, FileName(path), ReadOnly);
        if FilePath(path) in t.files {
          ReadFromStart(t.files[FilePath(path)]);
        }
      }
    }
  }

  /** Once the card is gone, every read panics and changes nothing. */
  lemma GoneCardPanics(s: Reader, path: Str)
    requires s.sdmmc.None?
    ensures FileRead(s, path) == (s, Panicked)
  {
  }

  /** `read_file_str`: the bytes as a string, or an error when they are not UTF-8. */
  function StrRead(s: Reader, path: Str): (r: (Reader, Outcome<Str>))
    ensures r.0 == FileRead(s, path).0
    ensures r.1.Panicked? <==> FileRead(s, path).1.Panicked?
    ensures r.1.Finished? && r.1.result.Ok? <==>
              FileRead(s, path).1.Finished? && FileRead(s, path).1.result.Ok? && Utf8.Valid(FileRead(s, path).1.result.value)
  {
    var (s1, bytes) := FileRead(s, path);
    if bytes.Panicked? then (s1, Panicked)
    else if bytes.result.Err? then (s1, Finished(Err(bytes.result.error)))
    else if Utf8.Valid(bytes.result.value) then (s1, Finished(Ok(Utf8.Chars(bytes.result.value))))
    else (s1, Finished(Err(NotUtf8(path))))
  }

  /** `SDCard`, whose card handle is taken and put back by each read. */
  class SdCard {
    var sdmmc: Option<Card>
    var answers: seq<bool>

    function State(): Reader
      reads this
    {
      Reader(sdmmc, answers)
    }

    /** `new`: the reader starts with its card. */
    constructor New(card: Tree, replies: seq<bool>)
      ensures State() == Reader(Some(Card(card)), replies)
    {
      sdmmc := Some(Card(card));
      answers := replies;
    }

    /** `read_file_bin`. */
    method ReadFileBin(path: Str) returns (r: Outcome<seq<byte>>)
      modifies this
      ensures (State(), r) == FileRead(old(State()), path)
    {
      if sdmmc.None? {
        return Panicked;
      }
      var card := sdmmc.value;
      sdmmc := None;
      var answered := Answers(answers);
      answers := Remaining(answers);
      if !answered {
        return Finished(Err(VolumeUnavailable));
      }
      var parts := Split(path, {'/'});
      var t, walked := WalkDirs(card.tree, parts, false);
      if walked.Err? {
        return Finished(Err(Folder(walked.error.part, path)));
      }
      var name := parts[|parts| - 1];
      var file := OpenFileIn(t, {}, walked.value, name, ReadOnly);
      if file.None? {
        return Finished(Err(FileUnopened(name, path)));
      }
      var buffer := ReadInto(t.files[file.value.1.path], file.value.1.position);
      sdmmc := Some(card);
      r := Finished(Ok(buffer));
    }

    /** `read_file_str`. */
    method ReadFileStr(path: Str) returns (r: Outcome<Str>)
      modifies this
      ensures (State(), r) == StrRead(old(State()), path)
    {
      var bytes := ReadFileBin(path);
      if bytes.Panicked? {
        return Panicked;
      }
      if bytes.result.Err? {
        return Finished(Err(bytes.result.error));
      }
      if Utf8.Valid(bytes.result.value) {
        r := Finished(Ok(Utf8.Chars(bytes.result.value)));
      } else {
        r := Finished(Err(NotUtf8(path)));
      }
    }
  }
}
