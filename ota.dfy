/**
 * Over-the-air update: the metadata file that describes the published firmware, the
 * decision whether that firmware is newer than the running one, the download loop that
 * hands the firmware to the flasher chunk by chunk, and the observer that passes the
 * update's progress on to the framework.
 */
module Ota {
  import opened Wrappers
  import opened Bytes
  import opened Text
  import Utf8

  datatype OtaRequest = CheckVersion | Update

  /** The size of the buffer the metadata and each firmware chunk are read into. */
  const BufferSize: nat := 4096

  /**
   * The texts the run reports. Fixed texts are kept as they are; of a formatted text only
   * the values it shows are kept (an error's `Debug` form and the progress percentage,
   * a floating-point value, are not modelled).
   */
  datatype Message =
    | Say(note: Note)
    | WithError(note: Note)
    | UpToDate(current: Str)
    | Progress(secs: nat)
    // The countdown text is formatted with the package name where it announces the flashed
    // version and the version where it names what restarts (ota.rs:421-426 passes them in that
    // order); only the seconds left are kept here.
    | Restarting(secondsLeft: nat)

  /** The fixed texts of the reports; `WithError` ones are followed by the error. */
  datatype Note =
    | ResolvingDns
    | DnsFailed
    | DnsEmpty
    | DnsUnsupported
    | FetchingMetadata
    | MetadataRequestFailed
    | MetadataResponseFailed
    | MetadataHeadersFailed
    | MetadataStatusFailed
    | MetadataReadFailed
    | MetadataInvalid
    | VersionInvalid
    | VersionUpToDate
    | VersionBehind
    | DownloadingFirmware
    | FirmwareRequestFailed
    | FirmwareResponseFailed
    | FirmwareStatusFailed
    | FlasherFailed
    | BeginFailed
    | FlashingError

  /** The words of each fixed text, as the run writes them (misspellings and all). */
  function Wording(n: Note): Str
  {
    match n
    case ResolvingDns => "Resolving Dns"
    case DnsFailed => "Failed to resolve Dns, Internet accessible?"
    case DnsEmpty => "Failed to resolve Dns for {ota_domain}, Internet accessible?"
    case DnsUnsupported => "Unsupported reply from Dns"
    case FetchingMetadata => "Fetching firmware metadata"
    case MetadataRequestFailed => "Failed to initiate request for metadata"
    case MetadataResponseFailed => "Failed to fetch response for metadata"
    case MetadataHeadersFailed => "Failed to read resopnse headers"
    case MetadataStatusFailed => "Failed to fetch firmware metadata"
    case MetadataReadFailed => "Failed to read response"
    case MetadataInvalid => "Something is wrong with firmware metadata"
    case VersionInvalid => "Version number in firmware metadata is invalid"
    case VersionUpToDate => "Version is up to date"
    case VersionBehind => "Version is behind"
    case DownloadingFirmware => "Downloading firmware"
    case FirmwareRequestFailed => "Failed to initiate request for firmware "
    case FirmwareResponseFailed => "Failed to fetch response for metadata "
    case FirmwareStatusFailed => "Failed downloading firmware"
    case FlasherFailed => "Error initializing flashing"
    case BeginFailed => "Failed to start OTA: "
    case FlashingError => "Flashing error: "
  }

  /** The kinds of report `run_ota` makes. */
  datatype Report = Status | Failure | Complete | Success | Version(version: Str, newer: bool)

  /** The calls an `OtaObserver` receives. */
  datatype ObserverCall =
    | OnStart
    | OnStatus(text: Message)
    | OnFailed(text: Message)
    | OnCompleted(text: Message)
    | OnVersionAvailable(version: Str, newer: bool)

  /**
   * The `report` closure of `run_ota`: a status, a failure and a completion pass their text
   * on, a success is a completion too, and a version report drops its text.
   */
  function Reported(r: Report, text: Message): (c: ObserverCall)
    ensures c.OnStatus? <==> r.Status?
    ensures c.OnFailed? <==> r.Failure?
    ensures c.OnCompleted? <==> r.Complete? || r.Success?
    ensures r.Version? ==> c == OnVersionAvailable(r.version, r.newer)
    ensures !c.OnStart? && (!r.Version? ==> c.text == text)
  {
    match r
    case Status => OnStatus(text)
    case Failure => OnFailed(text)
    case Complete => OnCompleted(text)
    case Success => OnCompleted(text)
    case Version(version, newer) => OnVersionAvailable(version, newer)
  }

  /**
   * `FrameworkOtaObserver`: the call that reaches the framework's `notify_ota_*`. Only an
   * update passes start, status, failure and completion on; the version always goes through.
   */
  function Forwarded(update: bool, c: ObserverCall): (f: Option<ObserverCall>)
    ensures f.Some? <==> update || c.OnVersionAvailable?
    ensures f.Some? ==> f.value == c
  {
    if update || c.OnVersionAvailable? then Some(c) else None
  }

  /** What the framework receives from a run whose observer was made with `update`. */
  function FrameworkCalls(update: bool, calls: seq<ObserverCall>): (r: seq<ObserverCall>)
    ensures update ==> r == calls
    ensures |r| <= |calls|
    decreases |calls|
  {
    if calls == [] then []
    else
      var f := Forwarded(update, calls[|calls| - 1]);
      FrameworkCalls(update, calls[..|calls| - 1]) + (if f.Some? then [f.value] else [])
  }

  /**
   * The framework of a version check hears of nothing but versions, and of every one of
   * them.
   */
  lemma {:induction false} FrameworkCallsOfCheck(calls: seq<ObserverCall>)
    ensures forall c :: c in FrameworkCalls(false, calls) ==> c in calls && c.OnVersionAvailable?
    ensures forall c :: c in calls && c.OnVersionAvailable? ==> c in FrameworkCalls(false, calls)
    decreases |calls|
  {
    if calls != [] {
      var front := calls[..|calls| - 1];
      FrameworkCallsOfCheck(front);
      assert calls == front + [calls[|calls| - 1]];
    }
  }

  // ---------------------------------------------------------------------------------------
  // The metadata file

  /** What the metadata file describes: the firmware's file, its CRC-32, version and size. */
  datatype Metadata = Metadata(filename: Str, crc32: nat, version: Str, filesize: nat)

  /** A metadata line as `key = value`: the key trimmed; the value trimmed and stripped of quotes. */
  function Entry(line: Str): (e: Option<(Str, Str)>)
    ensures e.None? <==> '=' !in line
  {
    match SplitOnce(line, '=')
    case None => None
    case Some((k, v)) => Some((Trim(k), TrimQuotes(Trim(v))))
  }

  /** The entries of the lines, line by line. */
  function Entries(lines: seq<Str>): (es: seq<Option<(Str, Str)>>)
    ensures |es| == |lines| && forall i :: 0 <= i < |lines| ==> es[i] == Entry(lines[i])
  {
    seq(|lines|, i requires 0 <= i < |lines| => Entry(lines[i]))
  }

  /** An entry that gives `key` a value. */
  predicate Sets(e: Option<(Str, Str)>, key: Str)
  {
    e.Some? && e.value.0 == key
  }

  /** Entry `i` is the last one that sets `key`. */
  ghost predicate LastSetter(es: seq<Option<(Str, Str)>>, key: Str, i: int)
  {
    0 <= i < |es| && Sets(es[i], key) && forall j :: i < j < |es| ==> !Sets(es[j], key)
  }

  /** The value the last entry with `key` gives it, if any entry does. */
  function LastValue(es: seq<Option<(Str, Str)>>, key: Str): Option<Str>
    decreases |es|
  {
    if es == [] then None
    else if Sets(es[|es| - 1], key) then Some(es[|es| - 1].value.1)
    else LastValue(es[..|es| - 1], key)
  }

  /**
   * A key's value is the one the last entry setting it gives; a key no entry sets has none.
   * So a later line overrides an earlier one, and lines without '=' or with other keys
   * change nothing.
   */
  lemma {:induction false} LastValueIsLast(es: seq<Option<(Str, Str)>>, key: Str)
    ensures LastValue(es, key).Some? ==>
              exists i :: LastSetter(es, key, i) && es[i].value.1 == LastValue(es, key).value
    ensures LastValue(es, key).None? ==> forall i :: 0 <= i < |es| ==> !Sets(es[i], key)
    decreases |es|
  {
    if es != [] {
      var n := |es| - 1;
      var init := es[..n];
      if Sets(es[n], key) {
        assert LastSetter(es, key, n);
      } else {
        LastValueIsLast(init, key);
        assert forall i :: 0 <= i < n ==> init[i] == es[i];
        if LastValue(init, key).Some? {
          var i :| LastSetter(init, key, i) && init[i].value.1 == LastValue(init, key).value;
          assert LastSetter(es, key, i);
        }
      }
    }
  }

  /** A parsed number, when there is a value and it parses (`Some(from_str_radix(..))` of the source). */
  function ParsedValue(v: Option<Str>, radix: nat): (r: Option<Option<nat>>)
    requires 2 <= radix <= 36
    ensures r.Some? <==> v.Some?
    ensures r.Some? && r.value.Some? ==> r.value.value <= U32Max
  {
    match v
    case None => None
    case Some(s) => Some(ParseUnsigned(s, radix, U32Max))
  }

  /** The metadata the four values give, when each is present and both numbers parse. */
  function Described(filename: Option<Str>, crc32: Option<Option<nat>>, version: Option<Str>,
                     filesize: Option<Option<nat>>): (m: Option<Metadata>)
    ensures m.Some? <==> filename.Some? && crc32.Some? && crc32.value.Some? && version.Some? &&
                         filesize.Some? && filesize.value.Some?
  {
    if filename.Some? && crc32.Some? && crc32.value.Some? && version.Some? && filesize.Some? && filesize.value.Some?
    then Some(Metadata(filename.value, crc32.value.value, version.value, filesize.value.value))
    else None
  }

  /**
   * The metadata the lines describe: a file name, a version, a CRC-32 in hexadecimal and a
   * size in decimal, each taken from the last line that sets it, both numbers fitting a `u32`.
   */
  function MetadataOf(lines: seq<Str>): (m: Option<Metadata>)
    ensures m.Some? ==> m.value.crc32 <= U32Max && m.value.filesize <= U32Max
  {
    var es := Entries(lines);
    Described(LastValue(es, "filename"), ParsedValue(LastValue(es, "crc32"), 16),
              LastValue(es, "version"), ParsedValue(LastValue(es, "filesize"), 10))
  }

  /**
   * The metadata loop of `run_ota`: each line's value is kept in a local, a later line
   * overriding an earlier one; the numbers are parsed as they are met.
   */
  method ParseMetadata(toml: Str) returns (m: Option<Metadata>)
    ensures m == MetadataOf(Lines(toml))
  {
    var filename: Option<Str> := None;
    var crc32: Option<Option<nat>> := None;
    var version: Option<Str> := None;
    var filesize: Option<Option<nat>> := None;
    var lines := Lines(toml);
    for i := 0 to |lines|
      invariant filename == LastValue(Entries(lines[..i]), "filename")
      invariant crc32 == ParsedValue(LastValue(Entries(lines[..i]), "crc32"), 16)
      invariant version == LastValue(Entries(lines[..i]), "version")
      invariant filesize == ParsedValue(LastValue(Entries(lines[..i]), "filesize"), 10)
    {
      EntriesSnoc(lines, i, "filename");
      EntriesSnoc(lines, i, "crc32");
      EntriesSnoc(lines, i, "version");
      EntriesSnoc(lines, i, "filesize");
      match SplitOnce(lines[i], '=') {
        case None =>
        case Some((key, value)) =>
          var k := Trim(key);
          var v := TrimQuotes(Trim(value));
          assert Entry(lines[i]) == Some((k, v));
          if k == "filename" {
            filename := Some(v);
          } else if k == "crc32" {
            crc32 := Some(ParseUnsigned(v, 16, U32Max));
          } else if k == "filesize" {
            filesize := Some(ParseUnsigned(v, 10, U32Max));
          } else if k == "version" {
            version := Some(v);
          }
      }
    }
    assert lines[..|lines|] == lines;
    m := Described(filename, crc32, version, filesize);
  }

  /** One more line sets its key and leaves every other key as it was. */
  lemma EntriesSnoc(lines: seq<Str>, i: nat, key: Str)
    requires i < |lines|
    ensures LastValue(Entries(lines[..i + 1]), key) ==
              if Sets(Entry(lines[i]), key) then Some(Entry(lines[i]).value.1) else LastValue(Entries(lines[..i]), key)
  {
    var es := Entries(lines[..i + 1]);
    assert es[..i] == Entries(lines[..i]);
  }

  // ---------------------------------------------------------------------------------------
  // The download

  /** What one read of the download loop gives, and what the flasher and the clock say after it. */
  datatype Chunk = Chunk(readOk: bool, write: WriteResult, secs: nat)

  /** `ota_write_chunk`: more is expected, the image is complete, or flashing failed. */
  datatype WriteResult = Written | Finished | WriteFailed

  /** How a run ends; `Exhausted` stands for a connection that keeps failing for ever. */
  datatype RunEnd = Stopped | Restarted | FlashingFailed | SmallerThanExpected | Exhausted | Panicked

  function Min(a: int, b: int): int { if a <= b then a else b }

  /** The number of bytes in chunks of the given sizes. */
  function Total(sizes: seq<nat>): nat
  {
    if sizes == [] then 0 else Total(sizes[..|sizes| - 1]) + sizes[|sizes| - 1]
  }

  /**
   * Chunk sizes as the download loop asks for them: each as large as the buffer and what is
   * left of the file allow, and never empty.
   */
  ghost predicate Chunked(sizes: seq<nat>, filesize: nat)
    decreases |sizes|
  {
    sizes != [] ==>
      var front := sizes[..|sizes| - 1];
      && Chunked(front, filesize)
      && Total(front) < filesize
      && sizes[|sizes| - 1] == Min(BufferSize, filesize - Total(front))
  }

  lemma ChunkedSnoc(sizes: seq<nat>, filesize: nat, n: nat)
    requires Chunked(sizes, filesize) && Total(sizes) < filesize
    requires n == Min(BufferSize, filesize - Total(sizes))
    ensures Chunked(sizes + [n], filesize)
    ensures Total(sizes + [n]) == Total(sizes) + n <= filesize
  {
    assert (sizes + [n])[..|sizes|] == sizes;
  }

  /** The seconds of the progress reports among the calls, in order. */
  function ProgressSecs(calls: seq<ObserverCall>): seq<nat>
  {
    if calls == [] then []
    else
      var c := calls[|calls| - 1];
      ProgressSecs(calls[..|calls| - 1]) + (if c.OnStatus? && c.text.Progress? then [c.text.secs] else [])
  }

  lemma ProgressSecsSnoc(calls: seq<ObserverCall>, c: ObserverCall)
    ensures ProgressSecs(calls + [c]) == ProgressSecs(calls) + (if c.OnStatus? && c.text.Progress? then [c.text.secs] else [])
  {
    assert (calls + [c])[..|calls|] == calls;
  }

  /** Every failure report ends the run, except the one of a failed `ota_begin`. */
  ghost predicate FailuresEnd(calls: seq<ObserverCall>)
  {
    forall i :: 0 <= i < |calls| - 1 && calls[i].OnFailed? ==> calls[i].text == WithError(BeginFailed)
  }

  /**
   * Reports as the firmware part of a run makes them: statuses, failures and completions,
   * no failure but the last (or a failed `ota_begin`), progress on increasing seconds.
   */
  ghost predicate Orderly(calls: seq<ObserverCall>)
  {
    && (forall c :: c in calls ==> c.OnStatus? || c.OnFailed? || c.OnCompleted?)
    && FailuresEnd(calls)
    && StrictlyIncreasing(ProgressSecs(calls))
  }

  ghost predicate StrictlyIncreasing(s: seq<nat>)
  {
    forall i, j :: 0 <= i < j < |s| ==> s[i] < s[j]
  }

  /** The success reports before the restart: five of them, counting down the seconds. */
  function Countdown(): (r: seq<ObserverCall>)
    ensures |r| == 5 && forall k :: 0 <= k < 5 ==> r[k] == OnCompleted(Restarting(5 - k))
  {
    seq(5, k requires 0 <= k < 5 => OnCompleted(Restarting(5 - k)))
  }

  /**
   * One turn of the download loop on its state (the reports, the chunk sizes, the bytes
   * read, the first second not yet reported), and the end it reaches, if any.
   */
  function TakeChunkOf(filesize: nat, chunk: Chunk, calls: seq<ObserverCall>, sizes: seq<nat>, bytesRead: nat, reportedOn: nat)
    : (r: (seq<ObserverCall>, seq<nat>, nat, nat, Option<RunEnd>))
    requires bytesRead <= filesize
    ensures r.2 <= filesize
  {
    if !chunk.readOk then (calls, sizes, bytesRead, reportedOn, None)
    else
      var n := Min(BufferSize, filesize - bytesRead);
      if n == 0 then (calls, sizes, bytesRead, reportedOn, Some(SmallerThanExpected))
      else match chunk.write
        case Finished => (calls + Countdown(), sizes + [n], bytesRead + n, reportedOn, Some(Restarted))
        case WriteFailed => (calls + [OnFailed(WithError(FlashingError))], sizes + [n], bytesRead + n, reportedOn, Some(FlashingFailed))
        case Written =>
          if chunk.secs >= reportedOn
          then (calls + [OnStatus(Progress(chunk.secs))], sizes + [n], bytesRead + n, chunk.secs + 1, None)
          else (calls, sizes + [n], bytesRead + n, reportedOn, None)
  }

  /** The download loop from a given state over the chunks still to come: the reports, the sizes and the end. */
  function DownloadOf(filesize: nat, chunks: seq<Chunk>, calls: seq<ObserverCall>, sizes: seq<nat>, bytesRead: nat, reportedOn: nat)
    : (r: (seq<ObserverCall>, seq<nat>, RunEnd))
    requires bytesRead <= filesize
    decreases |chunks|
  {
    if chunks == [] then (calls, sizes, Exhausted)
    else
      var t := TakeChunkOf(filesize, chunks[0], calls, sizes, bytesRead, reportedOn);
      if t.4.Some? then (t.0, t.1, t.4.value)
      else DownloadOf(filesize, chunks[1..], t.0, t.1, t.2, t.3)
  }

  /**
   * A connection that delivers every chunk to a flasher that takes them all reads the whole
   * file, as many bytes as the metadata announced, and then stops at the empty read.
   */
  lemma {:induction false} SteadyDownloadReadsAll(filesize: nat, chunks: seq<Chunk>, calls: seq<ObserverCall>, sizes: seq<nat>, bytesRead: nat, reportedOn: nat)
    requires bytesRead == Total(sizes) <= filesize && Chunked(sizes, filesize)
    requires forall k :: 0 <= k < |chunks| ==> chunks[k].readOk && chunks[k].write.Written?
    requires |chunks| > filesize - bytesRead
    ensures DownloadOf(filesize, chunks, calls, sizes, bytesRead, reportedOn).2 == SmallerThanExpected
    ensures Total(DownloadOf(filesize, chunks, calls, sizes, bytesRead, reportedOn).1) == filesize
    decreases |chunks|
  {
    var n := Min(BufferSize, filesize - bytesRead);
    if n != 0 {
      ChunkedSnoc(sizes, filesize, n);
      var t := TakeChunkOf(filesize, chunks[0], calls, sizes, bytesRead, reportedOn);
      assert t.1 == sizes + [n] && t.2 == bytesRead + n && t.4.None?;
      assert forall k :: 0 <= k < |chunks[1..]| ==> chunks[1..][k] == chunks[k + 1];
      SteadyDownloadReadsAll(filesize, chunks[1..], t.0, t.1, t.2, t.3);
    }
  }

  /**
   * The download loop of `run_ota`: each successful read takes the next chunk, as large as
   * the buffer and what is left of the file allow, and hands it to the flasher; a failed
   * read is retried. A progress status is reported at most once per elapsed second. The
   * loop ends when the flasher completes the image (five countdown reports, then a
   * restart), when flashing fails, or when the chunk to read is empty.
   */
  method Download(filesize: nat, chunks: seq<Chunk>) returns (calls: seq<ObserverCall>, sizes: seq<nat>, end: RunEnd)
    ensures (calls, sizes, end) == DownloadOf(filesize, chunks, [], [], 0, 0)
    ensures Chunked(sizes, filesize) && Total(sizes) <= filesize
    ensures Orderly(calls)
    ensures end == Restarted || end == FlashingFailed || end == SmallerThanExpected || end == Exhausted
    ensures end == SmallerThanExpected ==> Total(sizes) == filesize
    ensures end == Restarted ==> |calls| >= 5 && calls[|calls| - 5..] == Countdown()
    ensures end == FlashingFailed ==> calls != [] && calls[|calls| - 1] == OnFailed(WithError(FlashingError))
    ensures end == Exhausted ==> ProgressOnly(calls)
    ensures end == Restarted || end == FlashingFailed ==> sizes != []
  {
    var bytesRead, reportedOn := 0, 0;
    calls, sizes := [], [];
    var i := 0;
    while i < |chunks|
      invariant 0 <= i <= |chunks|
      invariant bytesRead == Total(sizes) <= filesize && Chunked(sizes, filesize)
      invariant ProgressOnly(calls) && Progressing(calls, reportedOn)
      invariant DownloadOf(filesize, chunks, [], [], 0, 0) == DownloadOf(filesize, chunks[i..], calls, sizes, bytesRead, reportedOn)
    {
      var stop;
      assert chunks[i..][1..] == chunks[i + 1..];
      TakeChunkKeeps(filesize, chunks[i], calls, sizes, bytesRead, reportedOn);
      calls, sizes, bytesRead, reportedOn, stop := TakeChunk(filesize, chunks[i], calls, sizes, bytesRead, reportedOn);
      i := i + 1;
      if stop.Some? {
        return calls, sizes, stop.value;
      }
    }
    ProgressOnlyEnds(calls, reportedOn);
    return calls, sizes, Exhausted;
  }

  /**
   * One turn of the download loop. A failed read changes nothing; a read of nothing ends
   * the loop; otherwise the chunk goes to the flasher, which may complete the image or
   * fail, and a progress status is reported when a new second has begun.
   */
  method TakeChunk(filesize: nat, chunk: Chunk, calls: seq<ObserverCall>, sizes: seq<nat>, bytesRead: nat, reportedOn: nat)
    returns (calls': seq<ObserverCall>, sizes': seq<nat>, bytesRead': nat, reportedOn': nat, stop: Option<RunEnd>)
    requires bytesRead == Total(sizes) <= filesize && Chunked(sizes, filesize)
    requires ProgressOnly(calls) && Progressing(calls, reportedOn)
    ensures (calls', sizes', bytesRead', reportedOn', stop) == TakeChunkOf(filesize, chunk, calls, sizes, bytesRead, reportedOn)
  {
    calls', sizes', bytesRead', reportedOn', stop := calls, sizes, bytesRead, reportedOn, None;
    if !chunk.readOk {
      return;
    }
    var bytesToRead := Min(BufferSize, filesize - bytesRead);
    if bytesToRead == 0 {
      stop := Some(SmallerThanExpected);
      return;
    }
    bytesRead' := bytesRead + bytesToRead;
    sizes' := sizes + [bytesToRead];
    calls', reportedOn', stop := AfterWrite(chunk, calls, reportedOn);
  }

  /** What follows a chunk read into the flasher: the flasher's answer and the progress report. */
  method AfterWrite(chunk: Chunk, calls: seq<ObserverCall>, reportedOn: nat)
    returns (calls': seq<ObserverCall>, reportedOn': nat, stop: Option<RunEnd>)
    requires ProgressOnly(calls) && Progressing(calls, reportedOn)
    ensures chunk.write.Finished? ==> calls' == calls + Countdown() && reportedOn' == reportedOn && stop == Some(Restarted)
    ensures chunk.write.WriteFailed? ==>
      calls' == calls + [OnFailed(WithError(FlashingError))] && reportedOn' == reportedOn && stop == Some(FlashingFailed)
    ensures chunk.write.Written? && chunk.secs >= reportedOn ==>
      calls' == calls + [OnStatus(Progress(chunk.secs))] && reportedOn' == chunk.secs + 1 && stop.None?
    ensures chunk.write.Written? && chunk.secs < reportedOn ==> calls' == calls && reportedOn' == reportedOn && stop.None?
  {
    calls', reportedOn', stop := calls, reportedOn, None;
    match chunk.write {
      case Finished =>
        calls' := Restart(calls, reportedOn);
        stop := Some(Restarted);
        return;
      case WriteFailed =>
        calls' := FailFlashing(calls, reportedOn);
        stop := Some(FlashingFailed);
        return;
      case Written =>
    }
    var secSinceStart := chunk.secs;
    if secSinceStart >= reportedOn {
      calls' := calls + [Reported(Status, Progress(secSinceStart))];
      reportedOn' := secSinceStart + 1;
    }
  }

  /**
   * A turn of the download loop keeps the loop's invariant, or ends it with orderly reports:
   * the file is all read when the chunk to read is empty, a completed image ends in the
   * countdown and a failed write in its failure.
   */
  lemma TakeChunkKeeps(filesize: nat, chunk: Chunk, calls: seq<ObserverCall>, sizes: seq<nat>, bytesRead: nat, reportedOn: nat)
    requires bytesRead == Total(sizes) <= filesize && Chunked(sizes, filesize)
    requires ProgressOnly(calls) && Progressing(calls, reportedOn)
    ensures var r := TakeChunkOf(filesize, chunk, calls, sizes, bytesRead, reportedOn);
      && r.2 == Total(r.1) && Chunked(r.1, filesize)
      && (r.4 == Some(SmallerThanExpected) ==> Total(r.1) == filesize)
      && (r.4 == Some(Restarted) || r.4 == Some(FlashingFailed) ==> r.1 != [])
    ensures var r := TakeChunkOf(filesize, chunk, calls, sizes, bytesRead, reportedOn);
      && (r.4.None? ==> ProgressOnly(r.0) && Progressing(r.0, r.3))
      && (r.4.Some? ==> Orderly(r.0) && (r.4.value == Restarted || r.4.value == FlashingFailed || r.4.value == SmallerThanExpected))
      && (r.4 == Some(Restarted) ==> |r.0| >= 5 && r.0[|r.0| - 5..] == Countdown())
      && (r.4 == Some(FlashingFailed) ==> r.0 != [] && r.0[|r.0| - 1] == OnFailed(WithError(FlashingError)))
  {
    ChunkKeepsSizes(filesize, chunk, calls, sizes, bytesRead, reportedOn);
    ChunkKeepsReports(filesize, chunk, calls, sizes, bytesRead, reportedOn);
  }

  /** The chunk sizes of a turn: the bytes read are their sum, and an empty chunk ends a full read. */
  lemma ChunkKeepsSizes(filesize: nat, chunk: Chunk, calls: seq<ObserverCall>, sizes: seq<nat>, bytesRead: nat, reportedOn: nat)
    requires bytesRead == Total(sizes) <= filesize && Chunked(sizes, filesize)
    ensures var r := TakeChunkOf(filesize, chunk, calls, sizes, bytesRead, reportedOn);
      && r.2 == Total(r.1) && Chunked(r.1, filesize)
      && (r.4 == Some(SmallerThanExpected) ==> Total(r.1) == filesize)
      && (r.4 == Some(Restarted) || r.4 == Some(FlashingFailed) ==> r.1 != [])
  {
    var n := Min(BufferSize, filesize - bytesRead);
    if chunk.readOk && n != 0 {
      ChunkedSnoc(sizes, filesize, n);
    }
  }

  /** The reports of a turn: progress alone while the loop goes on, orderly where it ends. */
  lemma ChunkKeepsReports(filesize: nat, chunk: Chunk, calls: seq<ObserverCall>, sizes: seq<nat>, bytesRead: nat, reportedOn: nat)
    requires bytesRead <= filesize
    requires ProgressOnly(calls) && Progressing(calls, reportedOn)
    ensures var r := TakeChunkOf(filesize, chunk, calls, sizes, bytesRead, reportedOn);
      && (r.4.None? ==> ProgressOnly(r.0) && Progressing(r.0, r.3))
      && (r.4.Some? ==> Orderly(r.0) && (r.4.value == Restarted || r.4.value == FlashingFailed || r.4.value == SmallerThanExpected))
      && (r.4 == Some(Restarted) ==> |r.0| >= 5 && r.0[|r.0| - 5..] == Countdown())
      && (r.4 == Some(FlashingFailed) ==> r.0 != [] && r.0[|r.0| - 1] == OnFailed(WithError(FlashingError)))
  {
    var n := Min(BufferSize, filesize - bytesRead);
    if !chunk.readOk {
    } else if n == 0 {
      ProgressOnlyEnds(calls, reportedOn);
    } else {
      match chunk.write {
        case Finished =>
          var c := calls + Countdown();
          CountdownOrderly(calls, reportedOn);
          assert c[|c| - 5..] == Countdown();
        case WriteFailed =>
          FailedOrderly(calls, reportedOn);
        case Written =>
          if chunk.secs >= reportedOn {
            ProgressReported(calls, reportedOn, chunk.secs);
          }
      }
    }
  }

  /** Calls that are all progress reports. */
  ghost predicate ProgressOnly(calls: seq<ObserverCall>)
  {
    forall c :: c in calls ==> c.OnStatus? && c.text.Progress?
  }

  /** The progress reports so far are on increasing seconds, all before `reportedOn`. */
  ghost predicate Progressing(calls: seq<ObserverCall>, reportedOn: nat)
  {
    && StrictlyIncreasing(ProgressSecs(calls))
    && forall k :: 0 <= k < |ProgressSecs(calls)| ==> ProgressSecs(calls)[k] < reportedOn
  }

  /** Progress reports alone are reports with no failure among them. */
  lemma ProgressOnlyEnds(calls: seq<ObserverCall>, reportedOn: nat)
    requires ProgressOnly(calls) && Progressing(calls, reportedOn)
    ensures Orderly(calls)
  {
    assert forall i :: 0 <= i < |calls| ==> calls[i] in calls;
  }

  /** `Ok(true)` of the flasher: the countdown to the restart follows the progress reports. */
  method Restart(calls: seq<ObserverCall>, ghost reportedOn: nat) returns (r: seq<ObserverCall>)
    requires ProgressOnly(calls) && Progressing(calls, reportedOn)
    ensures r == calls + Countdown() && |r| >= 5 && r[|r| - 5..] == Countdown()
    ensures Orderly(r)
  {
    var countdown := RestartReports();
    CountdownOrderly(calls, reportedOn);
    r := calls + countdown;
    assert r[|r| - 5..] == countdown;
  }

  /** Progress reports followed by the countdown have no failure and add no progress. */
  lemma CountdownOrderly(calls: seq<ObserverCall>, reportedOn: nat)
    requires ProgressOnly(calls) && Progressing(calls, reportedOn)
    ensures Orderly(calls + Countdown())
  {
    var r := calls + Countdown();
    ProgressOfCountdown(calls);
    forall i | 0 <= i < |r|
      ensures r[i].OnStatus? || r[i].OnCompleted?
    {
      if i < |calls| {
        assert r[i] in calls;
      } else {
        assert r[i] == Countdown()[i - |calls|];
      }
    }
  }

  /** `Err(_)` of the flasher: a failure report after the progress reports. */
  method FailFlashing(calls: seq<ObserverCall>, ghost reportedOn: nat) returns (r: seq<ObserverCall>)
    requires ProgressOnly(calls) && Progressing(calls, reportedOn)
    ensures r == calls + [OnFailed(WithError(FlashingError))]
    ensures Orderly(r)
  {
    FailedOrderly(calls, reportedOn);
    r := calls + [Reported(Failure, WithError(FlashingError))];
  }

  /** Progress reports followed by the failure of a write are orderly. */
  lemma FailedOrderly(calls: seq<ObserverCall>, reportedOn: nat)
    requires ProgressOnly(calls) && Progressing(calls, reportedOn)
    ensures Orderly(calls + [OnFailed(WithError(FlashingError))])
  {
    var r := calls + [OnFailed(WithError(FlashingError))];
    ProgressSecsSnoc(calls, OnFailed(WithError(FlashingError)));
    assert forall i :: 0 <= i < |calls| ==> r[i] in calls;
  }

  /** The five success reports of a completed image, one per second before the restart. */
  method RestartReports() returns (calls: seq<ObserverCall>)
    ensures calls == Countdown()
  {
    calls := [];
    for countdown := 0 to 5
      invariant calls == Countdown()[..countdown]
    {
      calls := calls + [Reported(Success, Restarting(5 - countdown))];
    }
  }

  /** A progress report on a second not yet reported keeps the reported seconds increasing. */
  lemma ProgressReported(calls: seq<ObserverCall>, reportedOn: nat, sec: nat)
    requires ProgressOnly(calls) && Progressing(calls, reportedOn) && reportedOn <= sec
    ensures ProgressOnly(calls + [OnStatus(Progress(sec))])
    ensures Progressing(calls + [OnStatus(Progress(sec))], sec + 1)
  {
    ProgressSecsSnoc(calls, OnStatus(Progress(sec)));
  }

  /** The progress reports of two runs of calls, one after the other. */
  lemma {:induction false} ProgressSecsAppend(calls: seq<ObserverCall>, more: seq<ObserverCall>)
    ensures ProgressSecs(calls + more) == ProgressSecs(calls) + ProgressSecs(more)
    decreases |more|
  {
    if more == [] {
      assert calls + more == calls;
    } else {
      var front, c := more[..|more| - 1], more[|more| - 1];
      assert calls + more == (calls + front) + [c];
      assert more == front + [c];
      ProgressSecsSnoc(calls + front, c);
      ProgressSecsSnoc(front, c);
      ProgressSecsAppend(calls, front);
    }
  }

  /** Calls none of which is a progress report report no second. */
  lemma {:induction false} ProgressSecsOfOthers(calls: seq<ObserverCall>)
    requires forall c :: c in calls ==> !(c.OnStatus? && c.text.Progress?)
    ensures ProgressSecs(calls) == []
    decreases |calls|
  {
    if calls != [] {
      ProgressSecsOfOthers(calls[..|calls| - 1]);
    }
  }

  /** The countdown adds no progress report. */
  lemma ProgressOfCountdown(calls: seq<ObserverCall>)
    ensures ProgressSecs(calls + Countdown()) == ProgressSecs(calls)
  {
    ProgressSecsAppend(calls, Countdown());
    ProgressSecsOfOthers(Countdown());
  }

  // ---------------------------------------------------------------------------------------
  // The run

  datatype IpAddress = Ipv4 | Ipv6

  /** An HTTP exchange: whether the request goes out, the response arrives and its headers parse, and the status code. */
  datatype Response = Response(requestOk: bool, responseOk: bool, headersOk: bool, status: int)

  /**
   * What the world answers a run: the DNS reply (`None` when the query fails), the metadata
   * exchange and the bytes one read of its body gives (`None` when the read fails), whether
   * the published version parses as a semantic version and whether it is newer than the
   * running one (the `semver` comparison), the firmware exchange, whether the flasher
   * initializes and `ota_begin` succeeds, and the chunks of the download.
   */
  datatype Env = Env(dns: Option<seq<IpAddress>>, metadata: Response, metadataBody: Option<seq<byte>>,
                     versionValid: bool, newer: bool, firmware: Response, flasherOk: bool, beginOk: bool,
                     chunks: seq<Chunk>)

  /** The exchange gives a 200 response. */
  predicate Fetched(r: Response)
  {
    r.requestOk && r.responseOk && r.headersOk && r.status == 200
  }

  /** The name resolves and its first address is an IPv4 one. */
  predicate Resolved(dns: Option<seq<IpAddress>>)
  {
    dns.Some? && dns.value != [] && dns.value[0] == Ipv4
  }

  /** The metadata text: what one read into the buffer gives, or "" when that is not UTF-8. */
  function MetadataText(body: seq<byte>): Str
  {
    var read := body[..Min(|body|, BufferSize)];
    if Utf8.Valid(read) then Utf8.Chars(read) else ""
  }

  /** The metadata a run gets to see: the name resolves, the exchange succeeds and the file describes a firmware. */
  function Offered(env: Env): Option<Metadata>
  {
    if Resolved(env.dns) && Fetched(env.metadata) && env.metadataBody.Some?
    then MetadataOf(Lines(MetadataText(env.metadataBody.value)))
    else None
  }

  /** Reports of the stages of a run, none of them a progress report. */
  ghost predicate Statuses(calls: seq<ObserverCall>)
  {
    forall c :: c in calls ==> c.OnStatus? && !c.text.Progress?
  }

  function Last(calls: seq<ObserverCall>): ObserverCall
    requires calls != []
  {
    calls[|calls| - 1]
  }

  /** A failure report with a fixed text. */
  function Failed(text: Note): ObserverCall
  {
    Reported(Failure, Say(text))
  }

  /**
   * The first part of `run_ota`: resolve the server's name, fetch the metadata file and
   * parse it. Each stage that fails reports a failure and ends the run, except an empty DNS
   * reply, which is reported as a status (its text keeps the unformatted `{ota_domain}`).
   */
  method FetchMetadata(env: Env) returns (calls: seq<ObserverCall>, m: Option<Metadata>)
    ensures m == Offered(env)
    ensures |calls| >= 2 && calls[0] == OnStatus(Say(ResolvingDns))
    ensures Statuses(calls[..|calls| - 1]) && (Last(calls).OnStatus? || Last(calls).OnFailed?)
    ensures Last(calls).OnStatus? ==> !Last(calls).text.Progress?
    ensures m.Some? ==> Statuses(calls)
    ensures env.dns.Some? && env.dns.value == [] ==>
              calls == [OnStatus(Say(ResolvingDns)), OnStatus(Say(DnsEmpty))]
    ensures MetadataStages(env, calls, m)
  {
    calls := [Reported(Status, Say(ResolvingDns))];
    if env.dns.None? {
      return calls + [Failed(DnsFailed)], None;
    }
    if env.dns.value == [] {
      return calls + [Reported(Status, Say(DnsEmpty))], None;
    }
    if env.dns.value[0] != Ipv4 {
      return calls + [Failed(DnsUnsupported)], None;
    }
    var exchange;
    exchange, m := FetchFile(env);
    assert (calls + exchange)[1..] == exchange;
    calls := calls + exchange;
  }

  /** The metadata exchange of `run_ota` once the name resolves: request, response, headers, status, read and parse. */
  method FetchFile(env: Env) returns (exchange: seq<ObserverCall>, m: Option<Metadata>)
    requires Resolved(env.dns)
    ensures m == Offered(env)
    ensures FileStages(env, exchange, m)
    ensures exchange[..1] == [OnStatus(Say(FetchingMetadata))] && (|exchange| == 1 || (|exchange| == 2 && exchange[1].OnFailed?))
    ensures m.Some? ==> |exchange| == 1
  {
    exchange := [Reported(Status, Say(FetchingMetadata))];
    m := None;
    if !env.metadata.requestOk {
      exchange := exchange + [Failed(MetadataRequestFailed)];
    } else if !env.metadata.responseOk {
      exchange := exchange + [Failed(MetadataResponseFailed)];
    } else if !env.metadata.headersOk {
      exchange := exchange + [Failed(MetadataHeadersFailed)];
    } else if env.metadata.status != 200 {
      exchange := exchange + [Failed(MetadataStatusFailed)];
    } else if env.metadataBody.None? {
      exchange := exchange + [Failed(MetadataReadFailed)];
    } else {
      m := ParseMetadata(MetadataText(env.metadataBody.value));
      if m.None? {
        exchange := exchange + [Failed(MetadataInvalid)];
      }
    }
  }

  /** The reports of the metadata exchange: a fetching status, then the failure of the stage that fails, if one does. */
  ghost predicate FileStages(env: Env, exchange: seq<ObserverCall>, m: Option<Metadata>)
  {
    var fetching, r := OnStatus(Say(FetchingMetadata)), env.metadata;
    && (!r.requestOk ==> exchange == [fetching, OnFailed(Say(MetadataRequestFailed))])
    && (r.requestOk && !r.responseOk ==> exchange == [fetching, OnFailed(Say(MetadataResponseFailed))])
    && (r.requestOk && r.responseOk && !r.headersOk ==> exchange == [fetching, OnFailed(Say(MetadataHeadersFailed))])
    && (r.requestOk && r.responseOk && r.headersOk && r.status != 200 ==>
          exchange == [fetching, OnFailed(Say(MetadataStatusFailed))])
    && (Fetched(r) && env.metadataBody.None? ==> exchange == [fetching, OnFailed(Say(MetadataReadFailed))])
    && (Fetched(r) && env.metadataBody.Some? ==> exchange == [fetching] + (if m.None? then [OnFailed(Say(MetadataInvalid))] else []))
  }

  /**
   * Each stage of fetching the metadata and how it ends the reports: a name that does not
   * resolve, resolves to nothing or to an IPv6 address; a request, a response, headers, a
   * status or a read that fails; a file that does not describe a firmware (`FileStages`).
   * Only a name that resolves to nothing ends without a failure.
   */
  ghost predicate MetadataStages(env: Env, calls: seq<ObserverCall>, m: Option<Metadata>)
  {
    var resolving := OnStatus(Say(ResolvingDns));
    && (env.dns.None? ==> calls == [resolving, OnFailed(Say(DnsFailed))])
    && (env.dns.Some? && env.dns.value != [] && env.dns.value[0] != Ipv4 ==>
          calls == [resolving, OnFailed(Say(DnsUnsupported))])
    && (Resolved(env.dns) ==> calls != [] && calls[0] == resolving && FileStages(env, calls[1..], m))
    && (m.None? && !(env.dns.Some? && env.dns.value == []) ==> calls != [] && Last(calls).OnFailed?)
  }

  /**
   * The firmware half of `run_ota`: asks for the image and starts the flasher. A request or
   * response that fails, a status other than 200 and a flasher that cannot be made are
   * failures; headers that do not parse panic; a failed `ota_begin` is reported and the
   * download goes on.
   */
  method Flash(m: Metadata, env: Env) returns (calls: seq<ObserverCall>, sizes: seq<nat>, end: RunEnd, ghost lead: seq<ObserverCall>)
    ensures calls != [] && calls[0] == OnStatus(Say(DownloadingFirmware))
    ensures Chunked(sizes, m.filesize) && Total(sizes) <= m.filesize
    ensures sizes != [] ==> Fetched(env.firmware) && env.flasherOk
    ensures end == Panicked <==> env.firmware.requestOk && env.firmware.responseOk && !env.firmware.headersOk
    ensures end == Restarted ==> sizes != [] && calls == lead + Countdown()
    ensures Orderly(calls)
    ensures Fetched(env.firmware) && env.flasherOk ==>
              var d := DownloadOf(m.filesize, env.chunks, [], [], 0, 0);
              sizes == d.1 && end == d.2 && calls == Opening(env.beginOk) + d.0
    ensures !(Fetched(env.firmware) && env.flasherOk) ==> sizes == [] && (end == Stopped || end == Panicked)
    ensures FirmwareStages(env.firmware, env.flasherOk, calls)
  {
    var go;
    calls, go, end := OpenFirmware(env);
    sizes, lead := [], [];
    if !go {
      return;
    }
    var more;
    more, sizes, end := Download(m.filesize, env.chunks);
    Joined(calls, more);
    if end == Restarted {
      CountdownSplit(more);
      CountdownAfter(calls, more, more[..|more| - 5]);
      lead := calls + more[..|more| - 5];
    }
    calls := calls + more;
  }

  /** Reports that end in the countdown are the reports before it, then the countdown. */
  lemma CountdownSplit(calls: seq<ObserverCall>)
    requires |calls| >= 5 && calls[|calls| - 5..] == Countdown()
    ensures calls == calls[..|calls| - 5] + Countdown()
  {
    assert calls == calls[..|calls| - 5] + calls[|calls| - 5..];
  }

  /** Reports in front of a run that ends in the countdown join the reports before it. */
  lemma CountdownAfter(front: seq<ObserverCall>, calls: seq<ObserverCall>, lead: seq<ObserverCall>)
    requires calls == lead + Countdown()
    ensures front + calls == (front + lead) + Countdown()
  {
  }

  /** The reports before the download: the stage's status, then the failure of `ota_begin` if it fails. */
  function Opening(beginOk: bool): seq<ObserverCall>
  {
    [OnStatus(Say(DownloadingFirmware))] + (if beginOk then [] else [OnFailed(WithError(BeginFailed))])
  }

  /** The stages of `run_ota` between asking for the image and downloading it; `go` when the download may start. */
  method OpenFirmware(env: Env) returns (calls: seq<ObserverCall>, go: bool, end: RunEnd)
    ensures calls != [] && calls[0] == OnStatus(Say(DownloadingFirmware))
    ensures go <==> Fetched(env.firmware) && env.flasherOk
    ensures go ==> Quiet(calls) && forall c :: c in calls ==> c.OnStatus? || c.OnFailed?
    ensures go ==> (calls == [calls[0]] <==> env.beginOk) && calls == Opening(env.beginOk)
    ensures !go ==> Orderly(calls) && (end == Stopped || end == Panicked)
    ensures !go ==> (end == Panicked <==> env.firmware.requestOk && env.firmware.responseOk && !env.firmware.headersOk)
    ensures FirmwareStages(env.firmware, env.flasherOk, calls)
  {
    var first := Reported(Status, Say(DownloadingFirmware));
    go, end := false, Stopped;
    var failure := None;
    if !env.firmware.requestOk {
      failure := Some(WithError(FirmwareRequestFailed));
    } else if !env.firmware.responseOk {
      failure := Some(WithError(FirmwareResponseFailed));
    } else if !env.firmware.headersOk {
      end := Panicked;
    } else if env.firmware.status != 200 {
      failure := Some(Say(FirmwareStatusFailed));
    } else if !env.flasherOk {
      failure := Some(Say(FlasherFailed));
    } else {
      go := true;
      if !env.beginOk {
        failure := Some(WithError(BeginFailed));
      }
    }
    calls := Staged(first, failure);
    StagedOrderly(first, failure);
  }

  /**
   * The stages between asking for the image and downloading it, when one of them stops the
   * run: a request or a response that fails, headers that do not parse (a panic, reported
   * by nothing more), a status other than 200 and a flasher that cannot be made.
   */
  ghost predicate FirmwareStages(r: Response, flasherOk: bool, calls: seq<ObserverCall>)
  {
    var downloading := OnStatus(Say(DownloadingFirmware));
    && (!r.requestOk ==> calls == [downloading, OnFailed(WithError(FirmwareRequestFailed))])
    && (r.requestOk && !r.responseOk ==> calls == [downloading, OnFailed(WithError(FirmwareResponseFailed))])
    && (r.requestOk && r.responseOk && !r.headersOk ==> calls == [downloading])
    && (r.requestOk && r.responseOk && r.headersOk && r.status != 200 ==>
          calls == [downloading, OnFailed(Say(FirmwareStatusFailed))])
    && (Fetched(r) && !flasherOk ==> calls == [downloading, OnFailed(Say(FlasherFailed))])
  }

  /** The status that opens a stage, followed by its failure if it has one. */
  function Staged(first: ObserverCall, failure: Option<Message>): (calls: seq<ObserverCall>)
    ensures calls != [] && calls[0] == first && (calls == [first] <==> failure.None?)
    ensures forall c :: c in calls ==> c == first || c.OnFailed?
  {
    if failure.None? then [first] else [first, OnFailed(failure.value)]
  }

  /** A stage's reports are orderly, and quiet unless the stage fails for good. */
  lemma StagedOrderly(first: ObserverCall, failure: Option<Message>)
    requires first.OnStatus? && !first.text.Progress?
    ensures Orderly(Staged(first, failure))
    ensures failure.None? || failure == Some(WithError(BeginFailed)) ==> Quiet(Staged(first, failure))
  {
    ProgressSecsSnoc([], first);
    assert [] + [first] == [first];
    if failure.Some? {
      var f := OnFailed(failure.value);
      ProgressSecsSnoc([first], f);
      assert [first] + [f] == Staged(first, failure);
    }
  }

  /** A prefix of reports without progress and failures that go on, then the download's reports. */
  lemma Joined(calls: seq<ObserverCall>, more: seq<ObserverCall>)
    requires Quiet(calls) && forall c :: c in calls ==> c.OnStatus? || c.OnFailed?
    requires Orderly(more)
    ensures Orderly(calls + more)
  {
    Prefixed(calls, more);
    var r := calls + more;
    forall i | 0 <= i < |r|
      ensures r[i].OnStatus? || r[i].OnFailed? || r[i].OnCompleted?
    {
      if i < |calls| {
        assert r[i] in calls;
      } else {
        assert r[i] in more;
      }
    }
  }

  /** Reports that neither report progress nor fail, except for a failed `ota_begin`. */
  ghost predicate Quiet(calls: seq<ObserverCall>)
  {
    forall c :: c in calls ==> !(c.OnStatus? && c.text.Progress?) && (c.OnFailed? ==> c.text == WithError(BeginFailed))
  }

  /** Quiet reports in front keep the progress seconds and the failures where they were. */
  lemma Prefixed(calls: seq<ObserverCall>, more: seq<ObserverCall>)
    requires Quiet(calls)
    requires StrictlyIncreasing(ProgressSecs(more)) && FailuresEnd(more)
    ensures StrictlyIncreasing(ProgressSecs(calls + more)) && FailuresEnd(calls + more)
  {
    ProgressSecsAppend(calls, more);
    ProgressSecsOfOthers(calls);
    var r := calls + more;
    forall i | 0 <= i < |r| - 1 && r[i].OnFailed?
      ensures r[i].text == WithError(BeginFailed)
    {
      if i < |calls| {
        assert r[i] in calls;
      } else {
        assert r[i] == more[i - |calls|];
      }
    }
  }

  /** A single report that is no progress report ends a run orderly. */
  lemma Single(c: ObserverCall)
    requires !(c.OnStatus? && c.text.Progress?)
    ensures StrictlyIncreasing(ProgressSecs([c])) && FailuresEnd([c])
  {
    ProgressSecsSnoc([], c);
  }

  /** The framework's view of two runs of calls, one after the other. */
  lemma {:induction false} FrameworkCallsAppend(update: bool, calls: seq<ObserverCall>, more: seq<ObserverCall>)
    ensures FrameworkCalls(update, calls + more) == FrameworkCalls(update, calls) + FrameworkCalls(update, more)
    decreases |more|
  {
    if more == [] {
      assert calls + more == calls;
    } else {
      var front, c := more[..|more| - 1], more[|more| - 1];
      assert (calls + more)[..|calls + more| - 1] == calls + front;
      assert more[..|more| - 1] == front;
      FrameworkCallsAppend(update, calls, front);
    }
  }

  /** Without version reports a check sends the framework nothing. */
  lemma {:induction false} FrameworkCallsWithoutVersion(calls: seq<ObserverCall>)
    requires forall c :: c in calls ==> !c.OnVersionAvailable?
    ensures FrameworkCalls(false, calls) == []
    decreases |calls|
  {
    if calls != [] {
      assert calls[|calls| - 1] in calls;
      FrameworkCallsWithoutVersion(calls[..|calls| - 1]);
    }
  }

  /** The reports of a run whose running firmware is as new as the published one. */
  function UpToDateCalls(current: Str, version: Str): seq<ObserverCall>
  {
    [OnCompleted(UpToDate(current)), OnVersionAvailable(version, false)]
  }

  /**
   * How a run opens: with the start of an update, and only then, and with the first stage,
   * resolving the server's name.
   */
  ghost predicate Opened(calls: seq<ObserverCall>, request: OtaRequest)
  {
    && |calls| >= 2 && (calls[0] == OnStart <==> request == Update)
    && (forall i :: 0 < i < |calls| ==> calls[i] != OnStart)
    && calls[if request == Update then 1 else 0] == OnStatus(Say(ResolvingDns))
  }

  /**
   * `run_ota`. An update starts by telling the observer; a check does not. The run then
   * fetches the metadata; a version that does not parse is a failure; a version that is
   * not newer is reported up to date and ends the run; a newer one is reported, which ends
   * a check; an update goes on to flash the firmware. `offered` is the metadata the run
   * got to see; the reports are those up to the metadata, `opening`, then the `rest`, and
   * a restart's countdown follows the reports `lead`.
   */
  method RunOta(request: OtaRequest, current: Str, env: Env)
    returns (calls: seq<ObserverCall>, offered: Option<Metadata>, flashed: seq<nat>, end: RunEnd,
             ghost opening: seq<ObserverCall>, ghost rest: seq<ObserverCall>, ghost lead: seq<ObserverCall>)
    ensures offered == Offered(env)
    ensures RunReported(request, current, env, offered, calls, flashed, end, opening, rest, lead)
    ensures MetadataStages(env, opening[if request == Update then 1 else 0..], offered)
  {
    var start := if request == Update then [OnStart] else [];
    var fetched;
    fetched, offered := FetchMetadata(env);
    FetchedCalls(start, fetched, offered.Some?, request);
    calls, flashed, end, opening, rest, lead := Proceed(request, current, env, start + fetched, offered);
    assert opening[|start|..] == fetched;
  }

  /**
   * What a run reports, after the reports `opening` up to the metadata `offered`: the
   * `rest` follows; only an update starts; progress is on increasing seconds and only the
   * last failure ends the run; a check's framework learns just the version, if one arrives
   * and parses; without metadata nothing more happens; with it, the run ends and reports
   * as `Ending` and `Verdict` say; a restart's countdown follows the reports `lead`.
   */
  ghost predicate RunReported(request: OtaRequest, current: Str, env: Env, offered: Option<Metadata>,
                              calls: seq<ObserverCall>, flashed: seq<nat>, end: RunEnd,
                              opening: seq<ObserverCall>, rest: seq<ObserverCall>, lead: seq<ObserverCall>)
  {
    && calls == opening + rest
    && Opened(opening, request) && OnStart !in rest
    && StrictlyIncreasing(ProgressSecs(calls)) && FailuresEnd(calls)
    && FrameworkCalls(false, calls) ==
         (if offered.Some? && env.versionValid then [OnVersionAvailable(offered.value.version, env.newer)] else [])
    && (offered.None? ==> rest == [] && flashed == [] && end == Stopped)
    && (offered.Some? ==> Ending(request, offered.value, env, flashed, end))
    && (offered.Some? ==> Verdict(request, current, offered.value, env, rest))
    && (end == Restarted ==> calls == lead + Countdown())
  }

  /** `run_ota` once the metadata is fetched, after the reports `opening`. */
  method Proceed(request: OtaRequest, current: Str, env: Env, opening: seq<ObserverCall>, offered: Option<Metadata>)
    returns (calls: seq<ObserverCall>, flashed: seq<nat>, end: RunEnd,
             ghost opening': seq<ObserverCall>, ghost rest: seq<ObserverCall>, ghost lead: seq<ObserverCall>)
    requires Opened(opening, request) && FrameworkCalls(false, opening) == []
    requires StrictlyIncreasing(ProgressSecs(opening)) && FailuresEnd(opening)
    requires offered.Some? ==> Quiet(opening)
    ensures RunReported(request, current, env, offered, calls, flashed, end, opening', rest, lead)
    ensures opening' == opening
  {
    calls, opening', rest, lead := opening, opening, [], [];
    if offered.None? {
      return calls, [], Stopped, opening', rest, lead;
    }
    var decided;
    ghost var before;
    decided, flashed, end, before := Decide(request, current, offered.value, env);
    Prefixed(opening, decided);
    FrameworkCallsAppend(false, opening, decided);
    if end == Restarted {
      CountdownAfter(opening, decided, before);
      lead := opening + before;
    }
    calls, rest := calls + decided, decided;
  }

  /**
   * How a run ends once the metadata `m` is in: a check never flashes; only an update of a
   * valid, newer version whose image arrives and whose flasher starts flashes anything; the
   * chunks are as the download asks for them; the run panics exactly when the firmware's
   * headers do not parse; a restart follows flashing; an up-to-date firmware stops the run.
   */
  ghost predicate Ending(request: OtaRequest, m: Metadata, env: Env, flashed: seq<nat>, end: RunEnd)
  {
    && (request == CheckVersion ==> end == Stopped && flashed == [])
    && (!env.versionValid ==> end == Stopped && flashed == [])
    && (flashed != [] ==> request == Update && env.versionValid && env.newer && Fetched(env.firmware) && env.flasherOk)
    && Chunked(flashed, m.filesize) && Total(flashed) <= m.filesize
    && (end == Panicked <==> request == Update && env.versionValid && env.newer && env.firmware.requestOk &&
                             env.firmware.responseOk && !env.firmware.headersOk)
    && (end == Restarted ==> flashed != [])
    && (env.versionValid && !env.newer ==> end == Stopped)
    && (request == Update && env.versionValid && env.newer && Fetched(env.firmware) && env.flasherOk ==>
          flashed == DownloadOf(m.filesize, env.chunks, [], [], 0, 0).1 && end == DownloadOf(m.filesize, env.chunks, [], [], 0, 0).2)
    && (request == Update && env.versionValid && env.newer && !(Fetched(env.firmware) && env.flasherOk) ==>
          flashed == [] && (end == Stopped || end == Panicked))
  }

  /**
   * The reports after the metadata `m`: a version that does not parse is the one failure;
   * one that is not newer gives the completion and the version; a newer one is reported
   * first, and alone for a check; an update then reports the firmware's stages and, once
   * the image arrives and the flasher starts, the download's reports.
   */
  ghost predicate Verdict(request: OtaRequest, current: Str, m: Metadata, env: Env, rest: seq<ObserverCall>)
  {
    && (!env.versionValid ==> rest == [Failed(VersionInvalid)])
    && (env.versionValid && !env.newer ==> rest == UpToDateCalls(current, m.version))
    && (env.versionValid && env.newer && request == CheckVersion ==> rest == [OnVersionAvailable(m.version, true)])
    && (env.versionValid && env.newer && request == Update ==>
          && |rest| >= 2 && rest[0] == OnVersionAvailable(m.version, true) && rest[1] == OnStatus(Say(DownloadingFirmware))
          && FirmwareStages(env.firmware, env.flasherOk, rest[1..])
          && (Fetched(env.firmware) && env.flasherOk ==>
                rest[1..] == Opening(env.beginOk) + DownloadOf(m.filesize, env.chunks, [], [], 0, 0).0))
  }

  /** What follows the metadata: the version decides. */
  method Decide(request: OtaRequest, current: Str, m: Metadata, env: Env)
    returns (calls: seq<ObserverCall>, flashed: seq<nat>, end: RunEnd, ghost lead: seq<ObserverCall>)
    ensures OnStart !in calls
    ensures StrictlyIncreasing(ProgressSecs(calls)) && FailuresEnd(calls)
    ensures FrameworkCalls(false, calls) == if env.versionValid then [OnVersionAvailable(m.version, env.newer)] else []
    ensures Ending(request, m, env, flashed, end)
    ensures Verdict(request, current, m, env, calls)
    ensures end == Restarted ==> calls == lead + Countdown()
  {
    flashed, end, lead := [], Stopped, [];
    if !env.versionValid {
      calls := [Failed(VersionInvalid)];
      Single(calls[0]);
      FrameworkCallsWithoutVersion(calls);
      NotFlashed(request, current, m, env, calls);
      return;
    }
    if !env.newer {
      calls := ReportUpToDate(current, m.version);
      NotFlashed(request, current, m, env, calls);
      return;
    }
    if request == CheckVersion {
      calls := [Reported(Version(m.version, true), Say(VersionBehind))];
      Single(calls[0]);
      assert FrameworkCalls(false, calls) == calls by {
        assert calls[..0] == [];
      }
      NotFlashed(request, current, m, env, calls);
      return;
    }
    calls, flashed, end, lead := Upgrade(current, m, env);
  }

  /** A run that flashes nothing stops, and ends as `Ending` says when the version or the request leaves nothing to flash. */
  lemma NotFlashed(request: OtaRequest, current: Str, m: Metadata, env: Env, calls: seq<ObserverCall>)
    requires !env.versionValid || !env.newer || request == CheckVersion
    requires !env.versionValid ==> calls == [Failed(VersionInvalid)]
    requires env.versionValid && !env.newer ==> calls == UpToDateCalls(current, m.version)
    requires env.versionValid && env.newer ==> calls == [OnVersionAvailable(m.version, true)]
    ensures Ending(request, m, env, [], Stopped)
    ensures Verdict(request, current, m, env, calls)
  {
  }

  /** An update to the newer version `m`: the version is reported, then the firmware is flashed. */
  method Upgrade(current: Str, m: Metadata, env: Env)
    returns (calls: seq<ObserverCall>, flashed: seq<nat>, end: RunEnd, ghost lead: seq<ObserverCall>)
    ensures OnStart !in calls
    ensures StrictlyIncreasing(ProgressSecs(calls)) && FailuresEnd(calls)
    ensures FrameworkCalls(false, calls) == [OnVersionAvailable(m.version, true)]
    ensures |calls| >= 2 && calls[0] == OnVersionAvailable(m.version, true) && calls[1] == OnStatus(Say(DownloadingFirmware))
    ensures FirmwareStages(env.firmware, env.flasherOk, calls[1..])
    ensures Chunked(flashed, m.filesize) && Total(flashed) <= m.filesize
    ensures flashed != [] ==> Fetched(env.firmware) && env.flasherOk
    ensures end == Panicked <==> env.firmware.requestOk && env.firmware.responseOk && !env.firmware.headersOk
    ensures end == Restarted ==> flashed != [] && calls == lead + Countdown()
    ensures Fetched(env.firmware) && env.flasherOk ==>
              var d := DownloadOf(m.filesize, env.chunks, [], [], 0, 0);
              flashed == d.1 && end == d.2 && calls[1..] == Opening(env.beginOk) + d.0
    ensures !(Fetched(env.firmware) && env.flasherOk) ==> flashed == [] && (end == Stopped || end == Panicked)
    ensures env.versionValid && env.newer ==> Ending(Update, m, env, flashed, end) && Verdict(Update, current, m, env, calls)
  {
    calls := [Reported(Version(m.version, true), Say(VersionBehind))];
    Single(calls[0]);
    assert FrameworkCalls(false, calls) == calls by {
      assert calls[..0] == [];
    }
    var more;
    ghost var before;
    more, flashed, end, before := Flash(m, env);
    Flashed(calls, more);
    lead := [];
    if end == Restarted {
      CountdownAfter(calls, more, before);
      lead := calls + before;
    }
    assert (calls + more)[1..] == more;
    calls := calls + more;
  }

  /** The two reports of a firmware that is as new as the published one. */
  method ReportUpToDate(current: Str, version: Str) returns (calls: seq<ObserverCall>)
    ensures calls == UpToDateCalls(current, version)
    ensures StrictlyIncreasing(ProgressSecs(calls)) && FailuresEnd(calls) && OnStart !in calls
    ensures FrameworkCalls(false, calls) == [OnVersionAvailable(version, false)]
  {
    calls := [Reported(Complete, UpToDate(current)), Reported(Version(version, false), Say(VersionUpToDate))];
    Appended([calls[0]], [calls[1]]);
    assert [calls[0]] + [calls[1]] == calls;
    FrameworkCallsWithoutVersion([calls[0]]);
    assert FrameworkCalls(false, [calls[1]]) == [calls[1]] by {
      assert [calls[1]][..0] == [];
    }
  }

  /** A quiet prefix, then reports of which only the last may fail, and none reports progress. */
  lemma Appended(calls: seq<ObserverCall>, tail: seq<ObserverCall>)
    requires Quiet(calls) && tail != [] && Quiet(tail[..|tail| - 1])
    requires !(Last(tail).OnStatus? && Last(tail).text.Progress?)
    ensures StrictlyIncreasing(ProgressSecs(calls + tail)) && FailuresEnd(calls + tail)
    ensures FrameworkCalls(false, calls + tail) == FrameworkCalls(false, calls) + FrameworkCalls(false, tail)
    ensures Quiet(tail) ==> Quiet(calls + tail)
  {
    var front := calls + tail[..|tail| - 1];
    assert Quiet(front) by {
      forall c | c in front
        ensures !(c.OnStatus? && c.text.Progress?) && (c.OnFailed? ==> c.text == WithError(BeginFailed))
      {
        assert c in calls || c in tail[..|tail| - 1];
      }
    }
    Single(Last(tail));
    Prefixed(front, [Last(tail)]);
    assert front + [Last(tail)] == calls + tail;
    FrameworkCallsAppend(false, calls, tail);
  }

  /** The reports up to the metadata: no start among them, nothing for a check's framework. */
  lemma FetchedCalls(start: seq<ObserverCall>, fetched: seq<ObserverCall>, ok: bool, request: OtaRequest)
    requires start == if request == Update then [OnStart] else []
    requires |fetched| >= 2 && fetched[0] == OnStatus(Say(ResolvingDns)) && Statuses(fetched[..|fetched| - 1])
    requires Last(fetched).OnStatus? || Last(fetched).OnFailed?
    requires Last(fetched).OnStatus? ==> !Last(fetched).text.Progress?
    requires ok ==> Statuses(fetched)
    ensures Opened(start + fetched, request)
    ensures FrameworkCalls(false, start + fetched) == []
    ensures StrictlyIncreasing(ProgressSecs(start + fetched)) && FailuresEnd(start + fetched)
    ensures ok ==> Quiet(start + fetched)
  {
    var front := fetched[..|fetched| - 1];
    assert fetched == front + [Last(fetched)];
    assert OnStart !in front && !front[0].OnVersionAvailable?;
    assert OnStart !in fetched;
    assert forall c :: c in fetched ==> !c.OnVersionAvailable? by {
      forall c | c in fetched
        ensures !c.OnVersionAvailable?
      {
        assert c in front || c == Last(fetched);
      }
    }
    Appended(start, fetched);
    FrameworkCallsWithoutVersion(start);
    FrameworkCallsWithoutVersion(fetched);
    OpenedBy(start, fetched, request);
  }

  /** The start of an update, then reports that begin with resolving the name and do not start again. */
  lemma OpenedBy(start: seq<ObserverCall>, fetched: seq<ObserverCall>, request: OtaRequest)
    requires start == if request == Update then [OnStart] else []
    requires |fetched| >= 2 && fetched[0] == OnStatus(Say(ResolvingDns)) && OnStart !in fetched
    ensures Opened(start + fetched, request)
  {
    var calls := start + fetched;
    forall i | 0 < i < |calls|
      ensures calls[i] != OnStart
    {
      assert calls[i] in fetched;
    }
  }

  /** The flashing reports after the quiet reports of a newer version. */
  lemma Flashed(calls: seq<ObserverCall>, more: seq<ObserverCall>)
    requires Quiet(calls) && Orderly(more)
    ensures OnStart !in more
    ensures StrictlyIncreasing(ProgressSecs(calls + more)) && FailuresEnd(calls + more)
    ensures FrameworkCalls(false, calls + more) == FrameworkCalls(false, calls)
  {
    Prefixed(calls, more);
    FrameworkCallsAppend(false, calls, more);
    FrameworkCallsWithoutVersion(more);
  }
}
