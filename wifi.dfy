/**
 * The Wi-Fi connection task: Improv Wi-Fi provisioning over the serial port while no
 * credentials are stored, then the station connect loop. The radio, the serial port, the
 * IP stack and the flash are an environment: each await point takes the next value from
 * its own stream, and a stream that runs out stands for the connection task waiting for ever. What
 * the connection task does to the world is a trace of actions.
 */
module Wifi {
  import opened Bytes
  import opened Wrappers
  import Utf8
  import Text
  import opened ImprovWifi
  import ImprovWifiCodec
  import Framework

  datatype Ipv4 = Ipv4(a: byte, b: byte, c: byte, d: byte)


  /** A scan entry: SSID, signal strength (an `i8`) and whether an auth method is set. */
  datatype AccessPointInfo = AccessPointInfo(ssid: Str, signalStrength: int, authRequired: bool)

  /** What one `rx.read` into the 40-byte buffer gives. */
  datatype ReadResult = ReadOk(bytes: seq<byte>) | ReadFailed

  /** The framework settings the connection task reads once at its start. */
  datatype Settings = Settings(apAddr: Ipv4, pkgName: Str, pkgVersion: Str, webServerHttps: bool, webServerCaptive: bool)

  /** A frame the connection task writes to the serial port, named by what it answers; `ReplyPacket` builds it. */
  datatype Reply =
    | StateReply(state: CurrentStateOption)
    | ErrorReply(error: ErrorStateOption)
    | DeviceInformation
    | ScanEntry(ap: AccessPointInfo)
    | ScanEnd
    | Redirect(https: bool, addr: Ipv4)

  datatype Action =
    | Sent(reply: Reply, flush: bool)
    | AccessPointStarted(ssid: Str)
    | DhcpServerSpawned
    | CaptivePortalSpawned
    | WebAppStarted(mode: Framework.WebConfigMode)
    | WebAppStopped
    | AccessPointStopped
    | WifiReported(addr: Option<Ipv4>, apMode: bool, ssid: Str)
    | Scanned
    | CredentialsTried(ssid: Str, password: Str)
    | ConnectAttempted(ssid: Str, password: Str)
    | StoreCredentials(ssid: Str, password: Str)
    | StaConnectedNotified
    | StaDisconnectedNotified

  /**
   * The environment's answers, one stream per await point: serial reads, scans (`None` is
   * a failed scan), the Improv credential check, the connect loop's connects, the IP polls,
   * and `set_wifi_credentials`.
   */
  datatype Env = Env(
    serial: seq<ReadResult>,
    scans: seq<Option<seq<AccessPointInfo>>>,
    trials: seq<bool>,
    connects: seq<bool>,
    ips: seq<Option<Ipv4>>,
    stores: seq<bool>)

  /** Why the connection task stopped: a zero-length read, a failed store, a panic, or a stream ran out. */
  datatype TaskEnd = SerialClosed | StoreFailed | Panicked | EnvironmentExhausted

  // ---------------------------------------------------------------------------------------
  // Texts and replies

  /** ASCII text as the bytes of a Rust string. */
  function AsciiBytes(s: seq<char>): (r: Str)
    requires forall i :: 0 <= i < |s| ==> s[i] as int < 128
    ensures |r| == |s| && forall i :: 0 <= i < |s| ==> r[i] == s[i] as int
  {
    var r := seq(|s|, i requires 0 <= i < |s| => s[i] as int as byte);
    Utf8.AsciiValid(r);
    r
  }

  lemma DecimalIsAscii(n: int)
    ensures forall i :: 0 <= i < |Text.Decimal(n)| ==> Text.Decimal(n)[i] as int < 128
  {
  }

  /** `format!("{}", n)`. */
  function Format(n: int): Str
  {
    DecimalIsAscii(n);
    AsciiBytes(Text.Decimal(n))
  }

  function Chip(): Str { AsciiBytes("ESP32S3") }

  function DeviceName(): Str { AsciiBytes("WT32-SC01-Plus") }

  /** `format!("{prefix}://{}", address)`. */
  function RedirectUrl(https: bool, addr: Ipv4): Str
  {
    var prefix := if https then "https://" else "http://";
    var dot := ".";
    var text := prefix + Text.Decimal(addr.a) + dot + Text.Decimal(addr.b) + dot + Text.Decimal(addr.c) + dot + Text.Decimal(addr.d);
    DecimalIsAscii(addr.a);
    DecimalIsAscii(addr.b);
    DecimalIsAscii(addr.c);
    DecimalIsAscii(addr.d);
    assert forall i :: 0 <= i < |prefix| ==> prefix[i] as int < 128;
    AsciiBytes(text)
  }

  function DeviceInformationPacket(s: Settings): Packet
  {
    NewRpcResult(DeviceInformationResult(s.pkgName, s.pkgVersion, Chip(), DeviceName()))
  }

  function ScanEntryPacket(ap: AccessPointInfo): Packet
  {
    NewRpcResult(ScannedNetworkResult(ap.ssid, Format(ap.signalStrength), ap.authRequired))
  }

  function ScanEndPacket(): Packet
  {
    NewRpcResult(ScannedNetworksEndResult())
  }

  /** The packet behind each reply. */
  function ReplyPacket(s: Settings, r: Reply): (p: Packet)
    ensures r.StateReply? ==> p.data == CurrentState(r.state)
    ensures r.ErrorReply? ==> p.data == ErrorState(r.error)
    ensures r.DeviceInformation? || r.ScanEntry? || r.ScanEnd? || r.Redirect? ==> p.data.RpcResult?
  {
    match r
    case StateReply(state) => NewCurrentState(state)
    case ErrorReply(error) => NewErrorState(error)
    case DeviceInformation => DeviceInformationPacket(s)
    case ScanEntry(ap) => ScanEntryPacket(ap)
    case ScanEnd => ScanEndPacket()
    case Redirect(https, addr) => NewRpcResult(SendWifiSettingsResult(RedirectUrl(https, addr)))
  }

  // ---------------------------------------------------------------------------------------
  // Scan deduplication

  function Ssids(aps: seq<AccessPointInfo>): set<Str>
  {
    set i | 0 <= i < |aps| :: aps[i].ssid
  }

  /**
   * The scan list filtered through `seen.insert(ssid)`: an entry is kept when its SSID has
   * not been seen before.
   */
  function UniqueBySsid(aps: seq<AccessPointInfo>): seq<AccessPointInfo>
  {
    if aps == [] then []
    else
      var kept := UniqueBySsid(aps[..|aps| - 1]);
      if aps[|aps| - 1].ssid in Ssids(kept) then kept else kept + [aps[|aps| - 1]]
  }

  /** The index of the first entry with this SSID. */
  function FirstIndex(aps: seq<AccessPointInfo>, ssid: Str): (k: nat)
    requires ssid in Ssids(aps)
    ensures k < |aps| && aps[k].ssid == ssid
    ensures forall j :: 0 <= j < k ==> aps[j].ssid != ssid
  {
    var init := aps[..|aps| - 1];
    if ssid in Ssids(init) then
      var k := FirstIndex(init, ssid);
      assert aps[k] == init[k];
      assert forall j :: 0 <= j < k ==> aps[j] == init[j];
      k
    else
      assert forall j :: 0 <= j < |aps| - 1 ==> aps[j] == init[j] && init[j].ssid in Ssids(init);
      |aps| - 1
  }

  /**
   * The filter keeps one entry per SSID, all SSIDs of the scan, each the first entry with
   * that SSID, in the order of the scan.
   */
  lemma SsidsSnoc(aps: seq<AccessPointInfo>, x: AccessPointInfo)
    ensures Ssids(aps + [x]) == Ssids(aps) + {x.ssid}
  {
    var r := aps + [x];
    forall s | s in Ssids(r) ensures s in Ssids(aps) + {x.ssid} {
      var i :| 0 <= i < |r| && r[i].ssid == s;
      if i < |aps| { assert r[i] == aps[i]; }
    }
    forall s | s in Ssids(aps) ensures s in Ssids(r) {
      var i :| 0 <= i < |aps| && aps[i].ssid == s;
      assert r[i] == aps[i];
    }
    assert r[|r| - 1].ssid in Ssids(r);
  }

  /** The filter keeps every SSID of the scan, and each of them once. */
  lemma {:induction false} UniqueKeepsEachSsidOnce(aps: seq<AccessPointInfo>)
    ensures var r := UniqueBySsid(aps);
      && Ssids(r) == Ssids(aps)
      && forall i, j :: 0 <= i < j < |r| ==> r[i].ssid != r[j].ssid
  {
    if aps != [] {
      var init := aps[..|aps| - 1];
      var last := aps[|aps| - 1];
      UniqueKeepsEachSsidOnce(init);
      assert aps == init + [last];
      SsidsSnoc(init, last);
      var kept := UniqueBySsid(init);
      if last.ssid !in Ssids(kept) {
        SsidsSnoc(kept, last);
        var r := kept + [last];
        forall i | 0 <= i < |kept| ensures r[i].ssid != last.ssid {
          assert r[i] == kept[i];
        }
      }
    }
  }

  /** Each kept entry is the first with its SSID, and the kept entries are in scan order. */
  lemma {:induction false} UniqueKeepsFirstInOrder(aps: seq<AccessPointInfo>)
    ensures var r := UniqueBySsid(aps);
      && (forall k :: 0 <= k < |r| ==> r[k].ssid in Ssids(aps) && r[k] == aps[FirstIndex(aps, r[k].ssid)])
      && (forall k, l :: 0 <= k < l < |r| ==> FirstIndex(aps, r[k].ssid) < FirstIndex(aps, r[l].ssid))
  {
    if aps != [] {
      var init := aps[..|aps| - 1];
      var last := aps[|aps| - 1];
      UniqueKeepsFirstInOrder(init);
      UniqueKeepsEachSsidOnce(init);
      assert aps == init + [last];
      SsidsSnoc(init, last);
      var kept := UniqueBySsid(init);
      forall k | 0 <= k < |kept|
        ensures kept[k].ssid in Ssids(aps) && FirstIndex(aps, kept[k].ssid) == FirstIndex(init, kept[k].ssid)
        ensures kept[k] == aps[FirstIndex(aps, kept[k].ssid)]
      {
        FirstIndexOfPrefix(aps, kept[k].ssid);
        assert aps[FirstIndex(init, kept[k].ssid)] == init[FirstIndex(init, kept[k].ssid)];
      }
      if last.ssid !in Ssids(kept) {
        var r := kept + [last];
        assert last.ssid !in Ssids(init);
        assert FirstIndex(aps, last.ssid) == |aps| - 1;
        forall k | 0 <= k < |r| ensures r[k].ssid in Ssids(aps) && r[k] == aps[FirstIndex(aps, r[k].ssid)] {
          if k < |kept| { assert r[k] == kept[k]; }
        }
        forall k, l | 0 <= k < l < |r| ensures FirstIndex(aps, r[k].ssid) < FirstIndex(aps, r[l].ssid) {
          assert r[k] == kept[k];
          if l < |kept| { assert r[l] == kept[l]; }
        }
      }
    }
  }

  lemma FirstIndexOfPrefix(aps: seq<AccessPointInfo>, ssid: Str)
    requires aps != [] && ssid in Ssids(aps[..|aps| - 1])
    ensures ssid in Ssids(aps) && FirstIndex(aps, ssid) == FirstIndex(aps[..|aps| - 1], ssid)
  {
    var init := aps[..|aps| - 1];
    var i :| 0 <= i < |init| && init[i].ssid == ssid;
    assert aps[i] == init[i];
  }

  /** The `filter` loop over the scan list with its `seen` set. */
  method UniqueAccessPoints(aps: seq<AccessPointInfo>) returns (r: seq<AccessPointInfo>)
    ensures r == UniqueBySsid(aps)
  {
    var seen: set<Str> := {};
    r := [];
    for i := 0 to |aps|
      invariant r == UniqueBySsid(aps[..i]) && seen == Ssids(r)
    {
      assert aps[..i + 1][..i] == aps[..i];
      if aps[i].ssid !in seen {
        SsidsSnoc(r, aps[i]);
        r := r + [aps[i]];
        seen := seen + {aps[i].ssid};
      }
    }
    assert aps[..|aps|] == aps;
  }

  /** The frames a scan request is answered with: one per kept entry, then the end marker. */
  function ScanReplies(scan: Option<seq<AccessPointInfo>>): (r: seq<Action>)
    ensures |r| >= 1 && r[|r| - 1] == Sent(ScanEnd, true)
  {
    var entries := if scan.Some? then UniqueBySsid(scan.value) else [];
    EntryReplies(entries) + [Sent(ScanEnd, true)]
  }

  lemma {:induction false} EntryRepliesAt(entries: seq<AccessPointInfo>)
    ensures forall i :: 0 <= i < |entries| ==> EntryReplies(entries)[i] == Sent(ScanEntry(entries[i]), true)
  {
    if entries != [] {
      EntryRepliesAt(entries[..|entries| - 1]);
    }
  }

  /** One scan-result frame per entry, in order. */
  function EntryReplies(entries: seq<AccessPointInfo>): (r: seq<Action>)
    ensures |r| == |entries|
  {
    if entries == [] then []
    else EntryReplies(entries[..|entries| - 1]) + [Sent(ScanEntry(entries[|entries| - 1]), true)]
  }

  /**
   * Exactly one end marker is sent, last, even for a failed scan, and it cannot be taken for
   * an entry: the frame of an entry carries three strings, the end marker's none.
   */
  lemma ScanRepliesEndOnce(settings: Settings, scan: Option<seq<AccessPointInfo>>)
    ensures var r := ScanReplies(scan);
      forall i :: 0 <= i < |r| - 1 ==>
        r[i].Sent? && r[i].reply.ScanEntry? && r[i].flush &&
        ReplyPacket(settings, r[i].reply).data.RpcResult? && |ReplyPacket(settings, r[i].reply).data.result.strings| == 3
    ensures ReplyPacket(settings, ScanEnd).data.RpcResult? && ReplyPacket(settings, ScanEnd).data.result.strings == []
    ensures scan.None? ==> ScanReplies(scan) == [Sent(ScanEnd, true)]
    ensures scan.Some? ==> |ScanReplies(scan)| == |UniqueBySsid(scan.value)| + 1
  {
    var r := ScanReplies(scan);
    var entries := if scan.Some? then UniqueBySsid(scan.value) else [];
    EntryRepliesAt(entries);
    forall i | 0 <= i < |r| - 1
      ensures r[i].Sent? && r[i].reply.ScanEntry? && r[i].flush &&
              ReplyPacket(settings, r[i].reply).data.RpcResult? && |ReplyPacket(settings, r[i].reply).data.result.strings| == 3
    {
      assert r[i] == Sent(ScanEntry(entries[i]), true);
    }
  }

  // ---------------------------------------------------------------------------------------
  // The receive buffer

  /** `iter().position(|&x| x == b)`. */
  function Position(s: seq<byte>, b: byte): (r: Option<nat>)
    ensures r.Some? ==> r.value < |s| && s[r.value] == b
    ensures r.Some? ==> forall j :: 0 <= j < r.value ==> s[j] != b
    ensures r.None? ==> forall j :: 0 <= j < |s| ==> s[j] != b
  {
    if s == [] then None
    else if s[0] == b then Some(0)
    else match Position(s[1..], b)
      case None => None
      case Some(k) => Some(k + 1)
  }

  /**
   * After a decode error: everything up to and including the first 0x0A goes, or the whole
   * buffer when there is none.
   */
  function Resync(buffer: seq<byte>): (r: seq<byte>)
    ensures |r| <= |buffer| && r == buffer[|buffer| - |r|..]
    ensures buffer != [] ==> |r| < |buffer|
  {
    match Position(buffer, Terminator)
    case Some(k) => buffer[k + 1..]
    case None => []
  }

  /** What one pass of the decode loop does with a buffer. */
  datatype Intake =
    | Frame(packet: Packet, rest: seq<byte>)
    | NeedMore
    | Junk(answerDeviceInformation: bool, rest: seq<byte>)

  /**
   * A decoded frame is removed; `Incomplete` keeps the buffer; any other error answers a
   * device-information request when the byte before the last is 0xE6, then resynchronises.
   */
  function Classify(buffer: seq<byte>): (r: Intake)
    ensures r.Frame? ==> |r.rest| + 12 <= |buffer| && r.rest == buffer[|buffer| - |r.rest|..]
    ensures r.Junk? ==> |r.rest| <= |buffer| && r.rest == buffer[|buffer| - |r.rest|..]
    ensures r.Junk? && buffer != [] ==> |r.rest| < |buffer|
    ensures r.NeedMore? <==> Decode(buffer, 0) == Err(Incomplete)
  {
    match Decode(buffer, 0)
    case Ok(Decoded(rest, p)) => Frame(p, rest)
    case Err(Incomplete) => NeedMore
    case Err(_) => Junk(|buffer| > 1 && buffer[|buffer| - 2] == 0xE6, Resync(buffer))
  }

  /** One pass of the decode loop's decision, computed the way the loop computes it. */
  method ClassifyBuffer(buffer: seq<byte>) returns (r: Intake)
    ensures r == Classify(buffer)
  {
    var d := ImprovWifiCodec.FromBytes(buffer, 0);
    match d {
      case Ok(Decoded(rest, p)) =>
        r := Frame(p, rest);
      case Err(Incomplete) =>
        r := NeedMore;
      case Err(_) =>
        var answer := |buffer| > 1 && buffer[|buffer| - 2] == 0xE6;
        match Position(buffer, Terminator) {
          case Some(k) => r := Junk(answer, buffer[k + 1..]);
          case None => r := Junk(answer, []);
        }
    }
  }

  // ---------------------------------------------------------------------------------------
  // Properties of traces
  //
  // The connection task's state is related to its trace by a monitor folded over the trace (`Watched`),
  // which one appended action updates in one step; the lemmas after it say what each field
  // of the monitor means as a property of the whole trace.

  /** A summary of a trace: whether the link is up and what has happened so far. */
  datatype Watch = Watch(
    up: bool,                 // the last connection notification was "connected"
    paired: bool,             // no disconnect notification without a connection open
    stops: nat,               // how often the Access Point was stopped
    provisioning: bool,       // a frame was sent, an Access Point started or credentials stored
    connects: nat,            // how many "connected" notifications there were
    restarted: bool)          // an Access Point was started other than as the first action

  /** The monitor after one more action; `first` says whether it is the trace's first. */
  function Observe(w: Watch, first: bool, a: Action): Watch
  {
    Watch(
      if a.StaConnectedNotified? then true else if a.StaDisconnectedNotified? then false else w.up,
      w.paired && (a.StaDisconnectedNotified? ==> w.up),
      w.stops + (if a.AccessPointStopped? then 1 else 0),
      w.provisioning || a.Sent? || a.AccessPointStarted? || a.StoreCredentials?,
      w.connects + (if a.StaConnectedNotified? then 1 else 0),
      w.restarted || (a.AccessPointStarted? && !first))
  }

  function Watched(t: seq<Action>): Watch
  {
    WatchedUpTo(t, |t|)
  }

  /** The monitor after the first `n` actions of `t`. */
  function WatchedUpTo(t: seq<Action>, n: nat): Watch
    requires n <= |t|
  {
    if n == 0 then Watch(false, true, 0, false, 0, false)
    else Observe(WatchedUpTo(t, n - 1), n == 1, t[n - 1])
  }

  /** The monitor of a prefix depends on that prefix only. */
  lemma {:induction false} WatchedUpToPrefix(t: seq<Action>, u: seq<Action>, n: nat)
    requires n <= |t| && n <= |u|
    requires forall i :: 0 <= i < n ==> t[i] == u[i]
    ensures WatchedUpTo(t, n) == WatchedUpTo(u, n)
  {
    if n > 0 {
      WatchedUpToPrefix(t, u, n - 1);
    }
  }

  /**
   * The five actions just before a "connected" notification in bootstrap mode: the IP
   * report, the stored credentials, `Provisioned`, the station web app and the redirect URL.
   */
  predicate PersistedJustBefore(t: seq<Action>, ssid: Str, password: Str, https: bool)
  {
    && |t| >= 5
    && t[|t| - 5].WifiReported? && t[|t| - 5].addr.Some? && t[|t| - 5] == WifiReported(t[|t| - 5].addr, false, ssid)
    && t[|t| - 4] == StoreCredentials(ssid, password)
    && t[|t| - 3] == Sent(StateReply(Provisioned), true)
    && t[|t| - 2] == WebAppStarted(Framework.STA)
    && t[|t| - 1] == Sent(Redirect(https, t[|t| - 5].addr.value), true)
  }

  /** One appended action updates the monitor by `Observe`. */
  lemma WatchedSnoc(t: seq<Action>, a: Action)
    ensures Watched(t + [a]) == Observe(Watched(t), t == [], a)
  {
    WatchedUpToPrefix(t + [a], t, |t|);
  }

  /**
   * How far the trace has come through the persisting actions for the given credentials
   * (`stage` of the five, the address of the IP report that began them), and whether every
   * "connected" notification so far came at stage 5.
   */
  datatype Progress = Progress(ok: bool, stage: nat, addr: Ipv4)

  /** The progress after one more action. */
  function Advance(p: Progress, a: Action, ssid: Str, password: Str, https: bool): (q: Progress)
    ensures q.stage <= 5
    ensures !a.StaConnectedNotified? ==> q.ok == p.ok
  {
    var stage :=
      if a.WifiReported? && a.addr.Some? && !a.apMode && a.ssid == ssid then 1
      else if p.stage == 1 && a == StoreCredentials(ssid, password) then 2
      else if p.stage == 2 && a == Sent(StateReply(Provisioned), true) then 3
      else if p.stage == 3 && a == WebAppStarted(Framework.STA) then 4
      else if p.stage == 4 && a == Sent(Redirect(https, p.addr), true) then 5
      else 0;
    Progress(p.ok && (a.StaConnectedNotified? ==> p.stage == 5), stage, if stage == 1 then a.addr.value else p.addr)
  }

  /** The progress after the first `n` actions of `t`. */
  function ProgressUpTo(t: seq<Action>, n: nat, ssid: Str, password: Str, https: bool): Progress
    requires n <= |t|
  {
    if n == 0 then Progress(true, 0, Ipv4(0, 0, 0, 0))
    else Advance(ProgressUpTo(t, n - 1, ssid, password, https), t[n - 1], ssid, password, https)
  }

  function Progressed(t: seq<Action>, ssid: Str, password: Str, https: bool): Progress
  {
    ProgressUpTo(t, |t|, ssid, password, https)
  }

  lemma {:induction false} ProgressUpToPrefix(t: seq<Action>, u: seq<Action>, n: nat, ssid: Str, password: Str, https: bool)
    requires n <= |t| && n <= |u|
    requires forall i :: 0 <= i < n ==> t[i] == u[i]
    ensures ProgressUpTo(t, n, ssid, password, https) == ProgressUpTo(u, n, ssid, password, https)
  {
    if n > 0 {
      ProgressUpToPrefix(t, u, n - 1, ssid, password, https);
    }
  }

  /** One appended action updates the progress by `Advance`. */
  lemma ProgressSnoc(t: seq<Action>, a: Action, ssid: Str, password: Str, https: bool)
    ensures Progressed(t + [a], ssid, password, https) == Advance(Progressed(t, ssid, password, https), a, ssid, password, https)
  {
    ProgressUpToPrefix(t + [a], t, |t|, ssid, password, https);
  }

  /** At stage k the trace ends with the first k persisting actions. */
  lemma {:induction false} ProgressStage(t: seq<Action>, ssid: Str, password: Str, https: bool)
    ensures var p := Progressed(t, ssid, password, https);
      p.stage <= |t| && t[|t| - p.stage..] == Persisting(p.addr, ssid, password, https)[..p.stage]
  {
    if t != [] {
      var s := t[..|t| - 1];
      assert t == s + [t[|t| - 1]];
      ProgressSnoc(s, t[|t| - 1], ssid, password, https);
      ProgressStage(s, ssid, password, https);
      var p := Progressed(s, ssid, password, https);
      var q := Progressed(t, ssid, password, https);
      if q.stage > 1 {
        assert q.addr == p.addr && p.stage == q.stage - 1;
        assert t[|t| - q.stage..] == s[|s| - p.stage..] + [t[|t| - 1]];
        assert Persisting(q.addr, ssid, password, https)[..q.stage] ==
               Persisting(p.addr, ssid, password, https)[..p.stage] + [Persisting(p.addr, ssid, password, https)[p.stage]];
      }
    }
  }

  /** Stage 5 is exactly "the last five actions persist the credentials". */
  lemma JustBeforeStage(t: seq<Action>, ssid: Str, password: Str, https: bool)
    ensures PersistedJustBefore(t, ssid, password, https) <==> Progressed(t, ssid, password, https).stage == 5
  {
    ProgressStage(t, ssid, password, https);
    if PersistedJustBefore(t, ssid, password, https) {
      var n := |t|;
      var addr := t[n - 5].addr.value;
      var u := Persisting(addr, ssid, password, https);
      var s := t[..n - 5];
      assert t == s + [u[0]] + [u[1]] + [u[2]] + [u[3]] + [u[4]];
      ProgressSnoc(s, u[0], ssid, password, https);
      ProgressSnoc(s + [u[0]], u[1], ssid, password, https);
      ProgressSnoc(s + [u[0]] + [u[1]], u[2], ssid, password, https);
      ProgressSnoc(s + [u[0]] + [u[1]] + [u[2]], u[3], ssid, password, https);
      ProgressSnoc(s + [u[0]] + [u[1]] + [u[2]] + [u[3]], u[4], ssid, password, https);
    }
    var p := Progressed(t, ssid, password, https);
    if p.stage == 5 {
      var n := |t|;
      var u := Persisting(p.addr, ssid, password, https);
      assert u[..5] == u;
      assert t[n - 5..][0] == t[n - 5] && t[n - 5..][1] == t[n - 4] && t[n - 5..][2] == t[n - 3];
      assert t[n - 5..][3] == t[n - 2] && t[n - 5..][4] == t[n - 1];
    }
  }

  // What the monitor means, stated over the whole trace.

  /** The link is up after a "connected" notification that no "disconnected" one follows. */
  predicate LastNotificationIsConnect(t: seq<Action>)
  {
    exists j :: 0 <= j < |t| && t[j].StaConnectedNotified? && forall k :: j < k < |t| ==> !t[k].StaDisconnectedNotified?
  }

  /** Each "disconnected" notification closes a connection a "connected" one opened before it. */
  predicate DisconnectsFollowConnects(t: seq<Action>)
  {
    forall i :: 0 <= i < |t| && t[i].StaDisconnectedNotified? ==>
      exists j :: 0 <= j < i && t[j].StaConnectedNotified? && forall k :: j < k < i ==> !t[k].StaDisconnectedNotified?
  }

  /** The Access Point is stopped at most once. */
  predicate StopsAtMostOnce(t: seq<Action>)
  {
    forall i, j :: 0 <= i < j < |t| && t[i].AccessPointStopped? ==> !t[j].AccessPointStopped?
  }

  predicate NoStop(t: seq<Action>)
  {
    forall i :: 0 <= i < |t| ==> !t[i].AccessPointStopped?
  }

  /** Nothing of provisioning happens: no frame, no Access Point, nothing stored. */
  predicate NoProvisioning(t: seq<Action>)
  {
    forall i :: 0 <= i < |t| ==> !t[i].Sent? && !t[i].AccessPointStarted? && !t[i].StoreCredentials?
  }

  predicate NotYetConnected(t: seq<Action>)
  {
    forall i :: 0 <= i < |t| ==> !t[i].StaConnectedNotified?
  }

  /** The Access Point is started only as the very first action, never again. */
  predicate NoRestart(t: seq<Action>)
  {
    forall i :: 0 < i < |t| ==> !t[i].AccessPointStarted?
  }

  /** Each "connected" notification in bootstrap mode comes right after the persisting actions. */
  predicate PersistedBeforeConnect(t: seq<Action>, ssid: Str, password: Str, https: bool)
  {
    forall i :: 0 <= i < |t| && t[i].StaConnectedNotified? ==> PersistedJustBefore(t[..i], ssid, password, https)
  }

  lemma {:induction false} WatchedUp(t: seq<Action>)
    ensures Watched(t).up <==> LastNotificationIsConnect(t)
  {
    if t != [] {
      var s := t[..|t| - 1];
      assert t == s + [t[|t| - 1]];
      WatchedSnoc(s, t[|t| - 1]);
      WatchedUp(s);
      UpSnoc(s, t[|t| - 1]);
    }
  }

  /** The link is up after one more action exactly when it connects, or leaves an up link alone. */
  lemma UpSnoc(s: seq<Action>, a: Action)
    ensures LastNotificationIsConnect(s + [a]) <==>
              a.StaConnectedNotified? || (!a.StaDisconnectedNotified? && LastNotificationIsConnect(s))
  {
    var t := s + [a];
    assert forall k :: 0 <= k < |s| ==> s[k] == t[k];
    if a.StaConnectedNotified? {
      assert t[|s|].StaConnectedNotified?;
    }
    if !a.StaDisconnectedNotified? && LastNotificationIsConnect(s) {
      var j :| 0 <= j < |s| && s[j].StaConnectedNotified? && forall k :: j < k < |s| ==> !s[k].StaDisconnectedNotified?;
      assert forall k :: j < k < |t| ==> !t[k].StaDisconnectedNotified?;
    }
    if !a.StaConnectedNotified? && LastNotificationIsConnect(t) {
      var j :| 0 <= j < |t| && t[j].StaConnectedNotified? && forall k :: j < k < |t| ==> !t[k].StaDisconnectedNotified?;
      assert t[|s|] == a;
      assert j < |s|;
      assert LastNotificationIsConnect(s);
    }
  }

  /** What the monitor and the progress say about a finished trace, in the direction the task needs. */
  lemma TraceMeaning(t: seq<Action>, ssid: Str, password: Str, https: bool)
    ensures Watched(t).paired ==> DisconnectsFollowConnects(t)
    ensures Watched(t).stops <= 1 ==> StopsAtMostOnce(t)
    ensures !Watched(t).restarted ==> NoRestart(t)
    ensures !Watched(t).provisioning ==> NoProvisioning(t)
    ensures Progressed(t, ssid, password, https).ok || Watched(t).connects == 0 ==> PersistedBeforeConnect(t, ssid, password, https)
  {
    WatchedPaired(t);
    WatchedStops(t);
    WatchedFlags(t);
    PersistedMeaning(t, ssid, password, https);
  }

  lemma WatchedPaired(t: seq<Action>)
    ensures Watched(t).paired <==> DisconnectsFollowConnects(t)
  {
    PairedFollow(t);
    FollowPaired(t);
  }

  /** Each disconnect the monitor accepts closes an open connection. */
  lemma {:induction false} PairedFollow(t: seq<Action>)
    ensures Watched(t).paired ==> DisconnectsFollowConnects(t)
  {
    if t != [] && Watched(t).paired {
      var s := t[..|t| - 1];
      assert t == s + [t[|t| - 1]];
      WatchedSnoc(s, t[|t| - 1]);
      PairedFollow(s);
      WatchedUp(s);
      FollowSnoc(s, t[|t| - 1]);
    }
  }

  /** One more action keeps every disconnect closing a connection if it is no disconnect or the link is up. */
  lemma FollowSnoc(s: seq<Action>, a: Action)
    requires DisconnectsFollowConnects(s)
    requires a.StaDisconnectedNotified? ==> LastNotificationIsConnect(s)
    ensures DisconnectsFollowConnects(s + [a])
  {
    var t := s + [a];
    forall i | 0 <= i < |t| && t[i].StaDisconnectedNotified?
      ensures exists j :: 0 <= j < i && t[j].StaConnectedNotified? && forall k :: j < k < i ==> !t[k].StaDisconnectedNotified?
    {
      if i < |s| {
        assert s[i].StaDisconnectedNotified?;
        var j :| 0 <= j < i && s[j].StaConnectedNotified? && forall k :: j < k < i ==> !s[k].StaDisconnectedNotified?;
        assert forall k :: j < k < i ==> t[k] == s[k];
        assert t[j].StaConnectedNotified?;
      } else {
        var j :| 0 <= j < |s| && s[j].StaConnectedNotified? && forall k :: j < k < |s| ==> !s[k].StaDisconnectedNotified?;
        assert forall k :: j < k < i ==> t[k] == s[k];
        assert t[j].StaConnectedNotified?;
      }
    }
  }

  /** A trace whose disconnects all close open connections is accepted by the monitor. */
  lemma {:induction false} FollowPaired(t: seq<Action>)
    ensures DisconnectsFollowConnects(t) ==> Watched(t).paired
  {
    if t != [] && DisconnectsFollowConnects(t) {
      var s := t[..|t| - 1];
      assert t == s + [t[|t| - 1]];
      WatchedSnoc(s, t[|t| - 1]);
      FollowPaired(s);
      WatchedUp(s);
      assert forall k :: 0 <= k < |s| ==> s[k] == t[k];
      assert DisconnectsFollowConnects(s) by {
        forall i | 0 <= i < |s| && s[i].StaDisconnectedNotified?
          ensures exists j :: 0 <= j < i && s[j].StaConnectedNotified? && forall k :: j < k < i ==> !s[k].StaDisconnectedNotified?
        {
          assert t[i].StaDisconnectedNotified?;
        }
      }
      if t[|t| - 1].StaDisconnectedNotified? {
        var j :| 0 <= j < |s| && t[j].StaConnectedNotified? && forall k :: j < k < |s| ==> !t[k].StaDisconnectedNotified?;
        assert s[j].StaConnectedNotified? && forall k :: j < k < |s| ==> !s[k].StaDisconnectedNotified?;
      }
    }
  }

  lemma {:induction false} WatchedStops(t: seq<Action>)
    ensures Watched(t).stops == 0 <==> NoStop(t)
    ensures Watched(t).stops <= 1 <==> StopsAtMostOnce(t)
  {
    if t != [] {
      var s := t[..|t| - 1];
      assert t == s + [t[|t| - 1]];
      WatchedSnoc(s, t[|t| - 1]);
      WatchedStops(s);
      assert forall k :: 0 <= k < |s| ==> s[k] == t[k];
      if StopsAtMostOnce(t) {
        assert StopsAtMostOnce(s);
        if t[|t| - 1].AccessPointStopped? {
          assert NoStop(s);
        }
      }
      if Watched(t).stops <= 1 && t[|t| - 1].AccessPointStopped? {
        assert NoStop(s);
      }
    }
  }

  lemma {:induction false} WatchedFlags(t: seq<Action>)
    ensures !Watched(t).provisioning <==> NoProvisioning(t)
    ensures Watched(t).connects == 0 <==> NotYetConnected(t)
    ensures !Watched(t).restarted <==> NoRestart(t)
  {
    if t != [] {
      var s := t[..|t| - 1];
      assert t == s + [t[|t| - 1]];
      WatchedSnoc(s, t[|t| - 1]);
      WatchedFlags(s);
      assert forall k :: 0 <= k < |s| ==> s[k] == t[k];
    }
  }

  /** The progress stays `ok` exactly when every "connected" notification comes right after the persisting actions. */
  lemma {:induction false} PersistedMeaning(t: seq<Action>, ssid: Str, password: Str, https: bool)
    ensures Progressed(t, ssid, password, https).ok <==> PersistedBeforeConnect(t, ssid, password, https)
  {
    if t != [] {
      var s := t[..|t| - 1];
      assert t == s + [t[|t| - 1]];
      ProgressSnoc(s, t[|t| - 1], ssid, password, https);
      JustBeforeStage(s, ssid, password, https);
      PersistedMeaning(s, ssid, password, https);
      assert forall k :: 0 <= k < |s| ==> s[k] == t[k] && s[..k] == t[..k];
      assert t[..|s|] == s;
    }
  }

  /** `heapless::String::<N>::from_str(s).unwrap_or_default()`. */
  function FitOrEmpty(s: Str, capacity: nat): (r: Str)
    ensures |r| <= capacity
    ensures |s| <= capacity ==> r == s
  {
    if |s| <= capacity then s else []
  }

  /**
   * Polling the stack for its IPv4 configuration until it has one: the address found first
   * and the polls left over; `None` when the polls run out.
   */
  function AddressWait(polls: seq<Option<Ipv4>>): (r: (Option<Ipv4>, seq<Option<Ipv4>>))
    ensures |r.1| < |polls| || (polls == [] && r == (None, []))
  {
    if polls == [] then (None, [])
    else if polls[0].Some? then (polls[0], polls[1..])
    else AddressWait(polls[1..])
  }

  /** The address found is the first some poll reported, and the polls after it are left. */
  lemma {:induction false} AddressWaitFirst(polls: seq<Option<Ipv4>>)
    ensures var r := AddressWait(polls);
      r.0.None? ==> r.1 == [] && forall k :: 0 <= k < |polls| ==> polls[k].None?
    ensures var r := AddressWait(polls);
      r.0.Some? ==> exists k :: 0 <= k < |polls| && polls[k] == r.0 && r.1 == polls[k + 1..] &&
                                forall j :: 0 <= j < k ==> polls[j].None?
  {
    if polls != [] && polls[0].None? {
      AddressWaitFirst(polls[1..]);
      var r := AddressWait(polls[1..]);
      if r.0.Some? {
        var k :| 0 <= k < |polls[1..]| && polls[1..][k] == r.0 && r.1 == polls[1..][k + 1..] &&
                 forall j :: 0 <= j < k ==> polls[1..][j].None?;
        assert polls[k + 1] == r.0 && r.1 == polls[k + 2..];
      }
    } else if polls != [] {
      assert polls[0] == AddressWait(polls).0;
    }
  }

  /** An action that opens or closes nothing: no notification, no Access Point started or stopped. */
  predicate Quiet(a: Action)
  {
    !a.StaConnectedNotified? && !a.StaDisconnectedNotified? && !a.AccessPointStopped? && !a.AccessPointStarted?
  }

  /** An action only provisioning performs. */
  predicate Provisional(a: Action)
  {
    a.Sent? || a.AccessPointStarted? || a.StoreCredentials?
  }

  /** The actions that persist accepted credentials, in bootstrap mode, once connected. */
  function Persisting(addr: Ipv4, ssid: Str, password: Str, https: bool): seq<Action>
  {
    [WifiReported(Some(addr), false, ssid), StoreCredentials(ssid, password),
     Sent(StateReply(Provisioned), true), WebAppStarted(Framework.STA),
     Sent(Redirect(https, addr), true)]
  }

  /** `u` begins with `t`. */
  ghost predicate Extends<T>(u: seq<T>, t: seq<T>)
  {
    |t| <= |u| && u[..|t|] == t
  }

  lemma ExtendsTrans<T>(a: seq<T>, b: seq<T>, c: seq<T>)
    requires Extends(a, b) && Extends(b, c)
    ensures Extends(a, c)
  {
    assert a[..|c|] == a[..|b|][..|c|];
  }

  /** `r` is what is left of `s` after dropping elements from its front. */
  ghost predicate EndsIn<T>(s: seq<T>, r: seq<T>)
  {
    |r| <= |s| && r == s[|s| - |r|..]
  }

  lemma EndsInTrans<T>(a: seq<T>, b: seq<T>, c: seq<T>)
    requires EndsIn(a, b) && EndsIn(b, c)
    ensures EndsIn(a, c)
  {
    assert c == a[|a| - |b|..][|b| - |c|..];
  }

  lemma Concat3<T>(a: seq<T>, b: seq<T>, c: seq<T>)
    ensures (a + b) + c == a + (b + c)
  {
  }

  /** How one pass over the buffer, or one command, ends. */
  datatype Step = Continue | Accepted | Halt(end: ProvisioningEnd)

  /** Provisioning never stores credentials, so it cannot end with a failed store. */
  type ProvisioningEnd = e: TaskEnd | !e.StoreFailed? witness SerialClosed

  /** The first actions of provisioning, before the Ready frame. */
  function Startup(s: Settings): seq<Action>
  {
    [AccessPointStarted(s.pkgName), DhcpServerSpawned]
      + (if s.webServerCaptive then [CaptivePortalSpawned] else [])
      + [WebAppStarted(Framework.AP), WifiReported(Some(s.apAddr), true, s.pkgName)]
  }

  /** The first actions on a Send-Wi-Fi-settings command. */
  function SettingsHead(apActive: bool): seq<Action>
  {
    [Sent(StateReply(Provisioning), true)] + (if apActive then [WebAppStopped, AccessPointStopped] else [])
  }

  /**
   * `connection_task_inner`. Its local variables are the fields here, so that the phases
   * of the one long function can be methods: the receive buffer, the credentials, and the
   * flags `improv_wifi_bootstrap`, `ap_active`, `first_connect` and `is_connected`.
   */
  class ConnectionTask {
    const settings: Settings
    // What the environment will answer, one element per call (see `Env`).
    var serial: seq<ReadResult>
    var scans: seq<Option<seq<AccessPointInfo>>>
    var trials: seq<bool>
    var links: seq<bool>
    var addresses: seq<Option<Ipv4>>
    var stores: seq<bool>
    var trace: seq<Action>
    var buffer: seq<byte>
    var ssid: Str
    var password: Str
    var bootstrap: bool
    var apActive: bool
    var firstConnect: bool
    var isConnected: bool
    /** The monitor of the trace, `Watched(trace)`. */
    ghost var watch: Watch
    /** In bootstrap mode, once provisioning is over: the progress through the persisting actions. */
    ghost var progress: Progress

    /** What holds between the connection task's steps. */
    ghost predicate Invariant()
      reads this
    {
      var w := watch;
      && watch == Watched(trace)
      && w.paired
      && w.up == isConnected
      && (isConnected ==> !firstConnect)
      && w.stops <= 1
      && (apActive ==> w.stops == 0)
      && !w.restarted
      && (!bootstrap ==> !w.provisioning)
    }

    /** In bootstrap mode every "connected" notification so far came right after the persisting actions. */
    ghost predicate Guarded()
      reads this
    {
      bootstrap ==> progress == Progressed(trace, ssid, password, settings.webServerHttps) && progress.ok
    }

    /** The provisioning phase, while the radio is an Access Point. */
    ghost predicate InProvisioning()
      reads this
    {
      Invariant() && bootstrap && watch.connects == 0 && !isConnected && firstConnect
    }

    constructor (settings: Settings, env: Env)
      ensures this.settings == settings
      ensures serial == env.serial && scans == env.scans && trials == env.trials
      ensures links == env.connects && addresses == env.ips && stores == env.stores
      ensures trace == [] && buffer == [] && ssid == [] && password == []
      ensures !bootstrap && !apActive && firstConnect && !isConnected
      ensures Invariant()
    {
      this.settings := settings;
      serial, scans, trials := env.serial, env.scans, env.trials;
      links, addresses, stores := env.connects, env.ips, env.stores;
      trace := [];
      buffer := [];
      ssid := [];
      password := [];
      bootstrap := false;
      apActive := false;
      firstConnect := true;
      isConnected := false;
      watch := Watched([]);
    }

    /** Records an action that leaves every property of the trace as it was. */
    method Say(a: Action)
      requires Invariant() && Quiet(a) && (!bootstrap ==> !Provisional(a))
      modifies this`trace, this`watch
      ensures trace == old(trace) + [a] && Invariant()
      ensures watch.connects == old(watch.connects)
    {
      WatchedSnoc(trace, a);
      trace := trace + [a];
      watch := Observe(watch, |trace| == 1, a);
    }

    /**
     * `Say` once provisioning is over, where each "connected" notification must still come
     * right after the persisting actions.
     */
    method Tell(a: Action)
      requires Invariant() && Guarded() && Quiet(a) && (!bootstrap ==> !Provisional(a))
      modifies this`trace, this`watch, this`progress
      ensures trace == old(trace) + [a] && Invariant() && Guarded()
      ensures bootstrap ==> progress == Advance(old(progress), a, ssid, password, settings.webServerHttps)
    {
      if bootstrap {
        ProgressSnoc(trace, a, ssid, password, settings.webServerHttps);
        progress := Advance(progress, a, ssid, password, settings.webServerHttps);
      }
      Say(a);
    }

    /**
     * The whole task: stored credentials (cut to the capacity of their `heapless` strings)
     * skip provisioning; otherwise Improv Wi-Fi provisioning runs until a credential check
     * succeeds. Then the connect loop runs.
     */
    method Run(storedSsid: Option<Str>, storedPassword: Option<Str>) returns (end: TaskEnd)
      requires Invariant()
      requires trace == [] && buffer == [] && !bootstrap && !apActive && firstConnect && !isConnected
      modifies this
      ensures DisconnectsFollowConnects(trace) && StopsAtMostOnce(trace) && NoRestart(trace)
      ensures storedSsid.Some? ==> NoProvisioning(trace)
      ensures storedSsid.Some? && storedPassword.None? ==> end == Panicked && trace == []
      ensures storedSsid.Some? && storedPassword.Some? ==>
                ssid == FitOrEmpty(storedSsid.value, 32) && password == FitOrEmpty(storedPassword.value, 64)
      ensures storedSsid.None? ==> PersistedBeforeConnect(trace, ssid, password, settings.webServerHttps)
      ensures storedSsid.None? && |settings.pkgName| > 32 ==> end == Panicked && trace == []
      ensures storedSsid.None? && |settings.pkgName| <= 32 ==>
                |trace| > |Startup(settings)| && trace[..|Startup(settings)| + 1] == Startup(settings) + [Sent(StateReply(Ready), false)]
      ensures end == StoreFailed ==>
                storedSsid.None? && |trace| > 0 && trace[|trace| - 1] == StoreCredentials(ssid, password) &&
                |stores| < |old(stores)| && !old(stores)[|old(stores)| - |stores| - 1]
    {
      if storedSsid.Some? {
        if storedPassword.None? {
          return Panicked;
        }
        end := RunStored(storedSsid.value, storedPassword.value);
      } else {
        end := RunProvisioned();
      }
    }

    /** Stored credentials: straight to the connect loop, which then never stores anything. */
    method RunStored(storedSsid: Str, storedPassword: Str) returns (end: TaskEnd)
      requires Invariant()
      requires trace == [] && buffer == [] && !bootstrap && !apActive && firstConnect && !isConnected
      modifies this
      ensures DisconnectsFollowConnects(trace) && StopsAtMostOnce(trace) && NoRestart(trace)
      ensures NoProvisioning(trace)
      ensures ssid == FitOrEmpty(storedSsid, 32) && password == FitOrEmpty(storedPassword, 64)
      ensures end == EnvironmentExhausted
    {
      ssid := FitOrEmpty(storedSsid, 32);
      password := FitOrEmpty(storedPassword, 64);
      end := ConnectLoop();
      TraceMeaning(trace, ssid, password, settings.webServerHttps);
    }

    /** No stored credentials: provisioning, then the connect loop in bootstrap mode. */
    method RunProvisioned() returns (end: TaskEnd)
      requires Invariant()
      requires trace == [] && buffer == [] && !bootstrap && !apActive && firstConnect && !isConnected
      modifies this
      ensures DisconnectsFollowConnects(trace) && StopsAtMostOnce(trace) && NoRestart(trace)
      ensures PersistedBeforeConnect(trace, ssid, password, settings.webServerHttps)
      ensures |settings.pkgName| > 32 ==> end == Panicked && trace == []
      ensures |settings.pkgName| <= 32 ==>
                |trace| > |Startup(settings)| && trace[..|Startup(settings)| + 1] == Startup(settings) + [Sent(StateReply(Ready), false)]
      ensures end == StoreFailed ==>
                |trace| > 0 && trace[|trace| - 1] == StoreCredentials(ssid, password) &&
                |stores| < |old(stores)| && !old(stores)[|old(stores)| - |stores| - 1]
    {
      var halt := Provision();
      assert stores == old(stores);
      if halt.Some? {
        assert halt.value != StoreFailed;
        TraceMeaning(trace, ssid, password, settings.webServerHttps);
        return halt.value;
      }
      ghost var t := trace;
      assert |t| > |Startup(settings)| && t[..|Startup(settings)| + 1] == Startup(settings) + [Sent(StateReply(Ready), false)];
      end := ConnectProvisioned();
      assert Extends(trace, t);
      assert trace[..|Startup(settings)| + 1] == t[..|Startup(settings)| + 1];
    }

    /** The connect loop once provisioning has accepted credentials, in bootstrap mode. */
    method ConnectProvisioned() returns (end: TaskEnd)
      requires InProvisioning() && !isConnected
      modifies this`trace, this`watch, this`progress, this`links, this`addresses, this`stores, this`isConnected, this`firstConnect
      ensures Extends(trace, old(trace))
      ensures DisconnectsFollowConnects(trace) && StopsAtMostOnce(trace) && NoRestart(trace)
      ensures PersistedBeforeConnect(trace, ssid, password, settings.webServerHttps)
      ensures end == StoreFailed ==>
                |trace| > 0 && trace[|trace| - 1] == StoreCredentials(ssid, password) &&
                |stores| < |old(stores)| && !old(stores)[|old(stores)| - |stores| - 1]
    {
      WatchedFlags(trace);
      PersistedMeaning(trace, ssid, password, settings.webServerHttps);
      progress := Progressed(trace, ssid, password, settings.webServerHttps);
      end := ConnectLoop();
      assert end == StoreFailed ==>
               |trace| > 0 && trace[|trace| - 1] == StoreCredentials(ssid, password) &&
               |stores| < |old(stores)| && !old(stores)[|old(stores)| - |stores| - 1];
      TraceMeaning(trace, ssid, password, settings.webServerHttps);
    }

    /**
     * Provisioning: start the Access Point, the DHCP server, the captive portal when
     * configured, and the web app; report the Access Point; say Ready; then read the serial
     * port and decode what accumulates. `None` means credentials were accepted.
     */
    method Provision() returns (halt: Option<TaskEnd>)
      requires Invariant()
      requires trace == [] && buffer == [] && !bootstrap && !apActive && firstConnect && !isConnected
      modifies this
      ensures halt.None? ==> InProvisioning() && |trace| > 0 && trace[|trace| - 1] == CredentialsTried(ssid, password)
      ensures halt.Some? ==> Invariant() && watch.connects == 0
      ensures halt != Some(StoreFailed) && stores == old(stores)
      ensures |settings.pkgName| > 32 ==> halt == Some(Panicked) && trace == []
      ensures |settings.pkgName| <= 32 ==>
                |trace| > |Startup(settings)| && trace[..|Startup(settings)| + 1] == Startup(settings) + [Sent(StateReply(Ready), false)]
    {
      if |settings.pkgName| > 32 {
        return Some(Panicked);
      }
      StartAccessPoint();
      ghost var opening := trace;
      buffer := [];
      while true
        invariant InProvisioning() && Extends(trace, opening) && stores == old(stores)
        decreases |serial|
      {
        ghost var t := trace;
        var step := ReadSerial();
        ExtendsTrans(trace, t, opening);
        if step.Accepted? {
          return None;
        } else if step.Halt? {
          return Some(step.end);
        }
      }
    }

    /**
     * One read of the serial port (up to the 40 bytes of its buffer): a closed port ends the
     * task, a read error is ignored, and data is appended to the buffer and decoded.
     */
    method ReadSerial() returns (step: Step)
      requires InProvisioning()
      modifies this`trace, this`watch, this`apActive, this`ssid, this`password, this`scans, this`trials, this`buffer, this`serial
      ensures InProvisioning() && Extends(trace, old(trace))
      ensures step.Accepted? ==> |trace| > 0 && trace[|trace| - 1] == CredentialsTried(ssid, password)
      ensures step.Continue? ==> |serial| < |old(serial)|
      ensures old(serial) == [] ==> step == Halt(EnvironmentExhausted)
      ensures old(serial) != [] && old(serial)[0] == ReadOk([]) ==> step == Halt(SerialClosed) && trace == old(trace)
      ensures old(serial) != [] && old(serial)[0] == ReadFailed ==> step == Continue && trace == old(trace) && buffer == old(buffer)
    {
      if serial == [] {
        return Halt(EnvironmentExhausted);
      }
      var r := serial[0];
      serial := serial[1..];
      if r.ReadFailed? {
        return Continue;
      }
      if |r.bytes| == 0 {
        return Halt(SerialClosed);
      }
      buffer := buffer + r.bytes;
      step := ProcessData();
    }

    /** The Access Point and its services come up, then the Ready frame goes out. */
    method StartAccessPoint()
      requires Invariant()
      requires trace == [] && !bootstrap && !apActive && firstConnect && !isConnected
      modifies this`trace, this`watch, this`bootstrap, this`apActive
      ensures InProvisioning() && apActive
      ensures trace == Startup(settings) + [Sent(StateReply(Ready), false)]
    {
      bootstrap := true;
      assert watch == Watch(false, true, 0, false, 0, false);
      WatchedSnoc(trace, AccessPointStarted(settings.pkgName));
      trace := trace + [AccessPointStarted(settings.pkgName)];
      watch := Observe(watch, true, AccessPointStarted(settings.pkgName));
      apActive := true;
      Say(DhcpServerSpawned);
      if settings.webServerCaptive {
        Say(CaptivePortalSpawned);
      }
      ghost var services := trace;
      Announce();
      assert trace == services + [WebAppStarted(Framework.AP), WifiReported(Some(settings.apAddr), true, settings.pkgName), Sent(StateReply(Ready), false)];
    }

    /** The web app starts, the Access Point is reported, and the Ready frame goes out. */
    method Announce()
      requires InProvisioning()
      modifies this`trace, this`watch
      ensures InProvisioning()
      ensures trace == old(trace) + [WebAppStarted(Framework.AP), WifiReported(Some(settings.apAddr), true, settings.pkgName), Sent(StateReply(Ready), false)]
    {
      Say(WebAppStarted(Framework.AP));
      Say(WifiReported(Some(settings.apAddr), true, settings.pkgName));
      Say(Sent(StateReply(Ready), false));
    }

    /**
     * The `'process_data` loop: decode frames from the front of the buffer while there is
     * one. It stops with the buffer empty or holding the start of an incomplete frame,
     * having dropped only bytes from its front.
     */
    method ProcessData() returns (step: Step)
      requires InProvisioning()
      modifies this`trace, this`watch, this`apActive, this`ssid, this`password, this`scans, this`trials, this`buffer
      ensures InProvisioning() && Extends(trace, old(trace))
      ensures step.Accepted? ==> |trace| > 0 && trace[|trace| - 1] == CredentialsTried(ssid, password)
      ensures step.Continue? ==> buffer == [] || Classify(buffer) == NeedMore
      ensures step.Continue? ==> EndsIn(old(buffer), buffer)
    {
      step := Continue;
      var more := true;
      while buffer != [] && more
        invariant InProvisioning() && Extends(trace, old(trace))
        invariant EndsIn(old(buffer), buffer)
        invariant step.Accepted? ==> |trace| > 0 && trace[|trace| - 1] == CredentialsTried(ssid, password)
        invariant !more ==> step.Continue? ==> Classify(buffer) == NeedMore
        invariant more ==> step.Continue?
        decreases |buffer|, more
      {
        ghost var t, b := trace, buffer;
        step, more := DecodePass();
        ExtendsTrans(trace, t, old(trace));
        EndsInTrans(old(buffer), b, buffer);
        if !step.Continue? {
          return;
        }
      }
    }

    /** `DecodeOne` as the `'process_data` loop relies on it: what it keeps and how it ends. */
    method DecodePass() returns (step: Step, more: bool)
      requires InProvisioning() && buffer != []
      modifies this`trace, this`watch, this`apActive, this`ssid, this`password, this`scans, this`trials, this`buffer
      ensures InProvisioning() && Extends(trace, old(trace)) && EndsIn(old(buffer), buffer)
      ensures step.Accepted? ==> |trace| > 0 && trace[|trace| - 1] == CredentialsTried(ssid, password)
      ensures more ==> step.Continue? && |buffer| < |old(buffer)|
      ensures !more ==> step.Continue? ==> buffer == old(buffer) && Classify(buffer) == NeedMore
    {
      step, more := DecodeOne();
    }

    /**
     * One pass of that loop on a non-empty buffer: a frame is taken off and dispatched, an
     * incomplete frame is left alone (`more` false), anything else is dropped up to the next
     * line feed, after answering a device-information request that lost its beginning.
     */
    method DecodeOne() returns (step: Step, more: bool)
      requires InProvisioning() && buffer != []
      modifies this`trace, this`watch, this`apActive, this`ssid, this`password, this`scans, this`trials, this`buffer
      ensures InProvisioning() && Extends(trace, old(trace)) && EndsIn(old(buffer), buffer)
      ensures step.Accepted? ==> |trace| > 0 && trace[|trace| - 1] == CredentialsTried(ssid, password)
      ensures more ==> step.Continue? && |buffer| < |old(buffer)|
      ensures !more ==> step.Continue? ==> buffer == old(buffer) && Classify(buffer) == NeedMore
      ensures Classify(old(buffer)).Frame? ==> buffer == Classify(old(buffer)).rest && (more <==> step.Continue?)
      ensures Classify(old(buffer)).Junk? ==>
                step == Continue && more && buffer == Classify(old(buffer)).rest &&
                trace == old(trace) + (if Classify(old(buffer)).answerDeviceInformation then [Sent(DeviceInformation, false)] else [])
    {
      var intake := ClassifyBuffer(buffer);
      match intake {
        case Frame(packet, rest) =>
          step := TakeFrame(packet, rest);
          more := step.Continue?;
        case NeedMore =>
          step, more := Continue, false;
        case Junk(answer, rest) =>
          DropJunk(answer, rest);
          step, more := Continue, true;
      }
    }

    /** A whole frame is taken off the buffer and its packet dispatched. */
    method TakeFrame(packet: Packet, rest: seq<byte>) returns (step: Step)
      requires InProvisioning()
      modifies this`trace, this`watch, this`apActive, this`ssid, this`password, this`scans, this`trials, this`buffer
      ensures InProvisioning() && Extends(trace, old(trace)) && buffer == rest
      ensures step.Accepted? ==> |trace| > 0 && trace[|trace| - 1] == CredentialsTried(ssid, password)
    {
      buffer := rest;
      step := Dispatch(packet);
    }

    /** Bytes that cannot start a frame are dropped, after the device-information answer when one is due. */
    method DropJunk(answer: bool, rest: seq<byte>)
      requires InProvisioning()
      modifies this`trace, this`watch, this`buffer
      ensures InProvisioning() && buffer == rest
      ensures trace == old(trace) + (if answer then [Sent(DeviceInformation, false)] else [])
    {
      if answer {
        Say(Sent(DeviceInformation, false));
      }
      buffer := rest;
    }

    /** The command dispatch on a decoded packet; anything but an RPC command is ignored. */
    method Dispatch(packet: Packet) returns (step: Step)
      requires InProvisioning()
      modifies this`trace, this`watch, this`apActive, this`ssid, this`password, this`scans, this`trials
      ensures InProvisioning() && |trace| >= |old(trace)| && trace[..|old(trace)|] == old(trace)
      ensures step.Accepted? ==> |trace| > 0 && trace[|trace| - 1] == CredentialsTried(ssid, password)
      ensures !packet.data.Rpc? ==> step == Continue && trace == old(trace)
      ensures packet.data.Rpc? && packet.data.rpc.data.RequestCurrentState? ==>
                step == Continue && trace == old(trace) + [Sent(StateReply(Ready), false)]
      ensures packet.data.Rpc? && packet.data.rpc.data.RequestDeviceInformation? ==>
                step == Continue && trace == old(trace) + [Sent(DeviceInformation, false)]
      ensures packet.data.Rpc? && packet.data.rpc.data.RequestScannedWifiNetworks? ==>
                scans == (if old(scans) == [] then [] else old(scans)[1..]) &&
                if old(scans) == [] then step == Halt(EnvironmentExhausted) && trace == old(trace) + [Scanned]
                else step == Continue && trace == old(trace) + ([Scanned] + ScanReplies(old(scans)[0]))
      ensures packet.data.Rpc? && packet.data.rpc.data.SendWifiSettings? ==> (
                var s := packet.data.rpc.data.settings;
                var tried := old(trace) + (SettingsHead(old(apActive)) + [CredentialsTried(s.ssid, s.password)]);
                && !apActive
                && (|s.ssid| > 32 || |s.password| > 64 ==> step == Halt(Panicked) && trace == old(trace) + SettingsHead(old(apActive)))
                && (|s.ssid| <= 32 && |s.password| <= 64 ==>
                      if old(trials) == [] then step == Halt(EnvironmentExhausted) && trace == tried
                      else if old(trials)[0] then step == Accepted && trace == tried && ssid == s.ssid && password == s.password
                      else step == Continue && trace == tried + [Sent(ErrorReply(UnableToConnect), true)]))
    {
      match packet.data {
        case Rpc(RpcCommandStruct(_, _, RequestCurrentState)) =>
          Say(Sent(StateReply(Ready), false));
          step := Continue;
        case Rpc(RpcCommandStruct(_, _, RequestDeviceInformation)) =>
          Say(Sent(DeviceInformation, false));
          step := Continue;
        case Rpc(RpcCommandStruct(_, _, RequestScannedWifiNetworks)) =>
          step := ReplyToScan();
        case Rpc(RpcCommandStruct(_, _, SendWifiSettings(s))) =>
          step := TrySettings(s);
        case _ =>
          step := Continue;
      }
    }

    /** A scan request: scan, send one entry per distinct SSID, then the end marker. */
    method ReplyToScan() returns (step: Step)
      requires InProvisioning()
      modifies this`trace, this`watch, this`scans
      ensures InProvisioning()
      ensures scans == if old(scans) == [] then [] else old(scans)[1..]
      ensures old(scans) == [] ==> step == Halt(EnvironmentExhausted) && trace == old(trace) + [Scanned]
      ensures old(scans) != [] ==> step == Continue && trace == old(trace) + ([Scanned] + ScanReplies(old(scans)[0]))
    {
      Say(Scanned);
      if scans == [] {
        return Halt(EnvironmentExhausted);
      }
      var scan := scans[0];
      scans := scans[1..];
      var entries: seq<AccessPointInfo> := [];
      if scan.Some? {
        entries := UniqueAccessPoints(scan.value);
      }
      ghost var head := trace;
      SendScanReplies(entries);
      assert trace == head + ScanReplies(scan);
      step := Continue;
    }

    /** One frame per scanned network, then the end marker, all flushed. */
    method SendScanReplies(entries: seq<AccessPointInfo>)
      requires InProvisioning()
      modifies this`trace, this`watch
      ensures InProvisioning()
      ensures trace == old(trace) + (EntryReplies(entries) + [Sent(ScanEnd, true)])
    {
      for i := 0 to |entries|
        invariant InProvisioning()
        invariant trace == old(trace) + EntryReplies(entries[..i])
      {
        var a := Sent(ScanEntry(entries[i]), true);
        assert entries[..i + 1][..i] == entries[..i];
        assert EntryReplies(entries[..i + 1]) == EntryReplies(entries[..i]) + [a];
        Concat3(old(trace), EntryReplies(entries[..i]), [a]);
        Say(a);
      }
      assert entries[..|entries|] == entries;
      Concat3(old(trace), EntryReplies(entries), [Sent(ScanEnd, true)]);
      Say(Sent(ScanEnd, true));
    }

    /**
     * A Send-Wi-Fi-settings command: say Provisioning, stop the web app and the Access
     * Point if it is still up, then check the credentials once (their `heapless` strings
     * panic on overlong values). Success adopts them; failure says UnableToConnect.
     */
    method TrySettings(s: SendWifiSettingsStruct) returns (step: Step)
      requires InProvisioning()
      modifies this`trace, this`watch, this`apActive, this`ssid, this`password, this`trials
      ensures InProvisioning() && !apActive
      ensures |old(trace)| < |trace| && trace[..|old(trace)|] == old(trace)
      ensures |s.ssid| > 32 || |s.password| > 64 ==> step == Halt(Panicked) && trace == old(trace) + SettingsHead(old(apActive))
      ensures |s.ssid| <= 32 && |s.password| <= 64 ==> (
        var tried := old(trace) + (SettingsHead(old(apActive)) + [CredentialsTried(s.ssid, s.password)]);
        if old(trials) == [] then step == Halt(EnvironmentExhausted) && trace == tried
        else if old(trials)[0] then step == Accepted && trace == tried && ssid == s.ssid && password == s.password
        else step == Continue && trace == tried + [Sent(ErrorReply(UnableToConnect), true)])
    {
      EnterSettings();
      ghost var head := trace;
      if |s.ssid| > 32 || |s.password| > 64 {
        return Halt(Panicked);
      }
      step := CheckCredentials(s);
      Concat3(old(trace), SettingsHead(old(apActive)), [CredentialsTried(s.ssid, s.password)]);
    }

    /** Provisioning is announced and the Access Point, if still up, is stopped. */
    method EnterSettings()
      requires InProvisioning()
      modifies this`trace, this`watch, this`apActive
      ensures InProvisioning() && !apActive
      ensures trace == old(trace) + SettingsHead(old(apActive))
    {
      Say(Sent(StateReply(Provisioning), true));
      if apActive {
        StopAccessPoint();
      }
    }

    /** One credential check, after which the credentials are adopted or refused. */
    method CheckCredentials(s: SendWifiSettingsStruct) returns (step: Step)
      requires InProvisioning() && !apActive && |s.ssid| <= 32 && |s.password| <= 64
      modifies this`trace, this`watch, this`ssid, this`password, this`trials
      ensures InProvisioning() && !apActive
      ensures var tried := old(trace) + [CredentialsTried(s.ssid, s.password)];
        if old(trials) == [] then step == Halt(EnvironmentExhausted) && trace == tried
        else if old(trials)[0] then step == Accepted && trace == tried && ssid == s.ssid && password == s.password
        else step == Continue && trace == tried + [Sent(ErrorReply(UnableToConnect), true)]
    {
      Say(CredentialsTried(s.ssid, s.password));
      if trials == [] {
        return Halt(EnvironmentExhausted);
      }
      var ok := trials[0];
      trials := trials[1..];
      if ok {
        ssid := s.ssid;
        password := s.password;
        return Accepted;
      }
      Say(Sent(ErrorReply(UnableToConnect), true));
      return Continue;
    }

    /**
     * The connect loop. An IP address is reported; in bootstrap mode the credentials are
     * stored every time (a failed store ends the connection task), Provisioned and the redirect URL are
     * sent and the station web app started; then "connected" is notified. A failed connect
     * after a connection reports and notifies the disconnect once.
     */
    method ConnectLoop() returns (end: TaskEnd)
      requires Invariant() && Guarded() && !isConnected
      modifies this`trace, this`watch, this`progress, this`links, this`addresses, this`stores, this`isConnected, this`firstConnect
      ensures Invariant() && Guarded() && ssid == old(ssid) && password == old(password) && bootstrap == old(bootstrap)
      ensures Extends(trace, old(trace))
      ensures end == StoreFailed || end == EnvironmentExhausted
      ensures end == EnvironmentExhausted ==> links == [] || addresses == [] || stores == []
      ensures |stores| <= |old(stores)| && stores == old(stores)[|old(stores)| - |stores|..]
      ensures end == StoreFailed ==>
                bootstrap && |trace| > 0 && trace[|trace| - 1] == StoreCredentials(ssid, password) &&
                |stores| < |old(stores)| && !old(stores)[|old(stores)| - |stores| - 1]
    {
      while true
        invariant Invariant() && Guarded() && Extends(trace, old(trace))
        invariant ssid == old(ssid) && password == old(password) && bootstrap == old(bootstrap)
        invariant |stores| <= |old(stores)| && stores == old(stores)[|old(stores)| - |stores|..]
        decreases |links|
      {
        ghost var t0, st := trace, stores;
        var failed := Attempt();
        ExtendsTrans(trace, t0, old(trace));
        if failed.Some? {
          if failed.value == StoreFailed {
            assert st[0] == old(stores)[|old(stores)| - |stores| - 1];
          }
          return failed.value;
        }
      }
    }

    /** One turn of the connect loop: the attempt is recorded, then its answer handled. */
    method Attempt() returns (failed: Option<TaskEnd>)
      requires Invariant() && Guarded()
      modifies this`trace, this`watch, this`progress, this`links, this`addresses, this`stores, this`isConnected, this`firstConnect
      ensures Invariant() && Guarded() && Extends(trace, old(trace))
      ensures failed.None? ==> |links| < |old(links)|
      ensures failed.Some? ==> failed.value == StoreFailed || failed.value == EnvironmentExhausted
      ensures failed == Some(EnvironmentExhausted) ==> links == [] || addresses == [] || stores == []
      ensures stores == old(stores) || (old(stores) != [] && stores == old(stores)[1..])
      ensures failed == Some(StoreFailed) ==>
                bootstrap && old(stores) != [] && !old(stores)[0] && stores == old(stores)[1..] &&
                |trace| > 0 && trace[|trace| - 1] == StoreCredentials(ssid, password)
    {
      Tell(ConnectAttempted(ssid, password));
      ghost var t, l, st := trace, links, stores;
      assert Extends(t, old(trace)) && l == old(links) && st == old(stores);
      failed := ConnectOnce();
      assert failed.None? ==> |links| < |l|;
      ExtendsTrans(trace, t, old(trace));
    }

    /**
     * One round of the connect loop after the attempt: on an answer of success wait for an
     * address and handle the connection, on an error handle a lost connection.
     */
    method ConnectOnce() returns (failed: Option<TaskEnd>)
      requires Invariant() && Guarded()
      modifies this`trace, this`watch, this`progress, this`links, this`addresses, this`stores, this`isConnected, this`firstConnect
      ensures Invariant() && Guarded() && Extends(trace, old(trace))
      ensures failed.Some? ==> failed.value == StoreFailed || failed.value == EnvironmentExhausted
      ensures old(links) == [] ==> failed == Some(EnvironmentExhausted) && links == [] && trace == old(trace)
      ensures old(links) != [] ==> links == old(links)[1..]
      ensures stores == old(stores) || (old(stores) != [] && stores == old(stores)[1..])
      ensures old(links) != [] && !old(links)[0] ==>
                failed.None? && !isConnected && stores == old(stores) && addresses == old(addresses) &&
                trace == old(trace) + (if old(isConnected) then [WifiReported(None, false, ssid), StaDisconnectedNotified] else [])
      ensures old(links) != [] && old(links)[0] ==> addresses == AddressWait(old(addresses)).1
      ensures failed == Some(EnvironmentExhausted) ==> links == [] || addresses == [] || stores == []
      ensures failed == Some(StoreFailed) <==>
                old(links) != [] && old(links)[0] && AddressWait(old(addresses)).0.Some? && bootstrap &&
                old(stores) != [] && !old(stores)[0]
      ensures failed == Some(StoreFailed) ==> stores == old(stores)[1..] && |trace| > 0 && trace[|trace| - 1] == StoreCredentials(ssid, password)
    {
      if links == [] {
        return Some(EnvironmentExhausted);
      }
      var connected := links[0];
      links := links[1..];
      if connected {
        failed := LinkUp();
      } else {
        LinkDown();
        failed := None;
      }
    }

    /** A connect that worked: wait for an address, then handle the connection. */
    method LinkUp() returns (failed: Option<TaskEnd>)
      requires Invariant() && Guarded()
      modifies this`trace, this`watch, this`progress, this`addresses, this`stores, this`isConnected, this`firstConnect
      ensures Invariant() && Guarded() && Extends(trace, old(trace))
      ensures failed.Some? ==> failed.value == StoreFailed || failed.value == EnvironmentExhausted
      ensures addresses == AddressWait(old(addresses)).1
      ensures stores == old(stores) || (old(stores) != [] && stores == old(stores)[1..])
      ensures AddressWait(old(addresses)).0.None? ==>
                failed == Some(EnvironmentExhausted) && addresses == [] && stores == old(stores) && trace == old(trace)
      ensures AddressWait(old(addresses)).0.Some? && !bootstrap ==>
                failed.None? && isConnected && stores == old(stores) &&
                trace == old(trace) + [WifiReported(AddressWait(old(addresses)).0, false, ssid), StaConnectedNotified]
      ensures failed == Some(EnvironmentExhausted) ==> addresses == [] || stores == []
      ensures failed == Some(StoreFailed) <==>
                AddressWait(old(addresses)).0.Some? && bootstrap && old(stores) != [] && !old(stores)[0]
      ensures failed == Some(StoreFailed) ==> stores == old(stores)[1..] && |trace| > 0 && trace[|trace| - 1] == StoreCredentials(ssid, password)
    {
      var addr := AwaitAddress();
      if addr.None? {
        AddressWaitFirst(old(addresses));
        return Some(EnvironmentExhausted);
      }
      failed := OnConnected(addr.value);
    }

    /** A connect that failed: a lost connection is reported and notified, once. */
    method LinkDown()
      requires Invariant() && Guarded()
      modifies this`trace, this`watch, this`progress, this`isConnected
      ensures Invariant() && Guarded() && !isConnected
      ensures trace == old(trace) + (if old(isConnected) then [WifiReported(None, false, ssid), StaDisconnectedNotified] else [])
    {
      if isConnected && !firstConnect {
        OnDisconnected();
      } else {
        isConnected := false;
      }
    }

    /** The `config_v4` polling after a connect: the first address the stack reports. */
    method AwaitAddress() returns (addr: Option<Ipv4>)
      modifies this`addresses
      ensures (addr, addresses) == AddressWait(old(addresses))
    {
      addr := None;
      while addresses != []
        invariant AddressWait(addresses) == AddressWait(old(addresses))
        decreases |addresses|
      {
        var poll := addresses[0];
        addresses := addresses[1..];
        if poll.Some? {
          return poll;
        }
      }
    }

    /** A stop of the web app and the Access Point, which happens once. */
    method StopAccessPoint()
      requires Invariant() && apActive
      modifies this`trace, this`apActive, this`watch
      ensures trace == old(trace) + [WebAppStopped, AccessPointStopped] && !apActive && Invariant()
      ensures watch.connects == old(watch.connects)
    {
      Say(WebAppStopped);
      WatchedSnoc(trace, AccessPointStopped);
      trace := trace + [AccessPointStopped];
      watch := Observe(watch, false, AccessPointStopped);
      apActive := false;
    }

    /**
     * A connection with an IP address: report it; in bootstrap mode store the credentials
     * (ending the connection task when that fails), say Provisioned, start the station web app and
     * send the redirect URL; then notify "connected".
     */
    method OnConnected(addr: Ipv4) returns (failed: Option<TaskEnd>)
      requires Invariant() && Guarded()
      modifies this`trace, this`watch, this`progress, this`stores, this`isConnected, this`firstConnect
      ensures Invariant() && Guarded() && Extends(trace, old(trace))
      ensures failed.None? ==> isConnected && !firstConnect && |trace| > 0 && trace[|trace| - 1] == StaConnectedNotified
      ensures failed.Some? ==> failed.value == StoreFailed || failed.value == EnvironmentExhausted
      ensures !bootstrap ==> failed.None? && trace == old(trace) + [WifiReported(Some(addr), false, ssid), StaConnectedNotified]
      ensures bootstrap && failed.None? ==>
                trace == old(trace) + (Persisting(addr, ssid, password, settings.webServerHttps) + [StaConnectedNotified])
      ensures !bootstrap ==> stores == old(stores)
      ensures bootstrap ==> (old(stores) == [] <==> failed == Some(EnvironmentExhausted))
      ensures bootstrap && old(stores) == [] ==> stores == [] && trace == old(trace) + [WifiReported(Some(addr), false, ssid)]
      ensures bootstrap && old(stores) != [] ==> stores == old(stores)[1..] && (failed.None? <==> old(stores)[0])
      ensures bootstrap && old(stores) != [] && !old(stores)[0] ==>
                failed == Some(StoreFailed) &&
                trace == old(trace) + [WifiReported(Some(addr), false, ssid), StoreCredentials(ssid, password)]
      ensures failed.Some? ==> isConnected == old(isConnected) && firstConnect == old(firstConnect)
    {
      if bootstrap {
        failed := ConnectedInBootstrap(addr);
      } else {
        ConnectedAsStation(addr);
        failed := None;
      }
    }

    /** Outside bootstrap mode a connection is reported and notified, nothing more. */
    method ConnectedAsStation(addr: Ipv4)
      requires Invariant() && Guarded() && !bootstrap
      modifies this`trace, this`watch, this`progress, this`isConnected, this`firstConnect
      ensures Invariant() && Guarded() && isConnected && !firstConnect
      ensures trace == old(trace) + [WifiReported(Some(addr), false, ssid), StaConnectedNotified]
    {
      Tell(WifiReported(Some(addr), false, ssid));
      NotifyConnected();
    }

    /** In bootstrap mode the report is followed by the persisting actions before the notification. */
    method ConnectedInBootstrap(addr: Ipv4) returns (failed: Option<TaskEnd>)
      requires Invariant() && Guarded() && bootstrap
      modifies this`trace, this`watch, this`progress, this`stores, this`isConnected, this`firstConnect
      ensures Invariant() && Guarded() && Extends(trace, old(trace))
      ensures failed.None? ==> isConnected && !firstConnect
      ensures failed.None? ==>
                trace == old(trace) + (Persisting(addr, ssid, password, settings.webServerHttps) + [StaConnectedNotified])
      ensures old(stores) == [] <==> failed == Some(EnvironmentExhausted)
      ensures old(stores) == [] ==> stores == [] && trace == old(trace) + [WifiReported(Some(addr), false, ssid)]
      ensures old(stores) != [] ==> stores == old(stores)[1..] && (failed.None? <==> old(stores)[0])
      ensures old(stores) != [] && !old(stores)[0] ==>
                failed == Some(StoreFailed) &&
                trace == old(trace) + [WifiReported(Some(addr), false, ssid), StoreCredentials(ssid, password)]
      ensures failed.Some? ==> isConnected == old(isConnected) && firstConnect == old(firstConnect)
    {
      failed := ReportAndPersist(addr);
      if failed.None? {
        ghost var p := Persisting(addr, ssid, password, settings.webServerHttps);
        NotifyConnected();
        Concat3(old(trace), p, [StaConnectedNotified]);
      }
    }

    /** The address report and the persisting actions, up to a failed store. */
    method ReportAndPersist(addr: Ipv4) returns (failed: Option<TaskEnd>)
      requires Invariant() && Guarded() && bootstrap
      modifies this`trace, this`watch, this`progress, this`stores
      ensures Invariant() && Guarded() && Extends(trace, old(trace))
      ensures failed.Some? ==> failed.value == StoreFailed || failed.value == EnvironmentExhausted
      ensures failed.None? ==> progress.stage == 5 && trace == old(trace) + Persisting(addr, ssid, password, settings.webServerHttps)
      ensures old(stores) == [] <==> failed == Some(EnvironmentExhausted)
      ensures old(stores) == [] ==> stores == [] && trace == old(trace) + [WifiReported(Some(addr), false, ssid)]
      ensures old(stores) != [] ==> stores == old(stores)[1..] && (failed.None? <==> old(stores)[0])
      ensures old(stores) != [] && !old(stores)[0] ==>
                failed == Some(StoreFailed) &&
                trace == old(trace) + [WifiReported(Some(addr), false, ssid), StoreCredentials(ssid, password)]
    {
      Tell(WifiReported(Some(addr), false, ssid));
      ghost var reported, st := trace, stores;
      assert reported == old(trace) + [WifiReported(Some(addr), false, ssid)] && st == old(stores);
      failed := PersistCredentials(addr);
      ExtendsTrans(trace, reported, old(trace));
      if failed == Some(StoreFailed) {
        assert reported + [StoreCredentials(ssid, password)] ==
               old(trace) + [WifiReported(Some(addr), false, ssid), StoreCredentials(ssid, password)];
      }
      if failed.None? {
        ghost var p := Persisting(addr, ssid, password, settings.webServerHttps);
        ghost var rest := [StoreCredentials(ssid, password), Sent(StateReply(Provisioned), true),
                           WebAppStarted(Framework.STA), Sent(Redirect(settings.webServerHttps, addr), true)];
        assert trace == reported + rest;
        assert p == [WifiReported(Some(addr), false, ssid)] + rest;
        Concat3(old(trace), [WifiReported(Some(addr), false, ssid)], rest);
      }
    }

    /**
     * Bootstrap mode, once connected and the address reported: store the credentials
     * (ending the connection task when that fails), say Provisioned, start the station web app and
     * send the redirect URL.
     */
    method PersistCredentials(addr: Ipv4) returns (failed: Option<TaskEnd>)
      requires Invariant() && Guarded() && bootstrap && progress.stage == 1 && progress.addr == addr
      modifies this`trace, this`watch, this`progress, this`stores
      ensures Invariant() && Guarded() && Extends(trace, old(trace))
      ensures failed.Some? ==> failed.value == StoreFailed || failed.value == EnvironmentExhausted
      ensures failed.None? ==> progress.stage == 5
      ensures old(stores) == [] <==> failed == Some(EnvironmentExhausted)
      ensures old(stores) == [] ==> stores == [] && trace == old(trace)
      ensures old(stores) != [] ==> stores == old(stores)[1..] && (failed.None? <==> old(stores)[0])
      ensures old(stores) != [] && !old(stores)[0] ==>
                failed == Some(StoreFailed) && trace == old(trace) + [StoreCredentials(ssid, password)]
      ensures failed.None? ==>
                trace == old(trace) + [StoreCredentials(ssid, password), Sent(StateReply(Provisioned), true),
                                       WebAppStarted(Framework.STA), Sent(Redirect(settings.webServerHttps, addr), true)]
    {
      if stores == [] {
        return Some(EnvironmentExhausted);
      }
      var stored := stores[0];
      stores := stores[1..];
      Tell(StoreCredentials(ssid, password));
      if !stored {
        return Some(StoreFailed);
      }
      AnnounceStation(addr);
      failed := None;
    }

    /** After storing: say Provisioned, start the station web app, send the redirect URL. */
    method AnnounceStation(addr: Ipv4)
      requires Invariant() && Guarded() && bootstrap && progress.stage == 2 && progress.addr == addr
      modifies this`trace, this`watch, this`progress
      ensures Invariant() && Guarded() && progress.stage == 5
      ensures trace == old(trace) + [Sent(StateReply(Provisioned), true), WebAppStarted(Framework.STA),
                                     Sent(Redirect(settings.webServerHttps, addr), true)]
    {
      Tell(Sent(StateReply(Provisioned), true));
      Tell(WebAppStarted(Framework.STA));
      Tell(Sent(Redirect(settings.webServerHttps, addr), true));
    }

    /** The "connected" notification; in bootstrap mode it comes right after the persisting actions. */
    method NotifyConnected()
      requires Invariant() && Guarded() && (bootstrap ==> progress.stage == 5)
      modifies this`trace, this`watch, this`progress, this`isConnected, this`firstConnect
      ensures Invariant() && Guarded() && isConnected && !firstConnect
      ensures trace == old(trace) + [StaConnectedNotified]
    {
      if bootstrap {
        ProgressSnoc(trace, StaConnectedNotified, ssid, password, settings.webServerHttps);
        progress := Advance(progress, StaConnectedNotified, ssid, password, settings.webServerHttps);
      }
      WatchedSnoc(trace, StaConnectedNotified);
      trace := trace + [StaConnectedNotified];
      watch := Observe(watch, false, StaConnectedNotified);
      firstConnect := false;
      isConnected := true;
    }

    /** A lost connection: report that there is no address and notify "disconnected". */
    method OnDisconnected()
      requires Invariant() && Guarded() && isConnected && !firstConnect
      modifies this`trace, this`watch, this`progress, this`isConnected
      ensures Invariant() && Guarded() && !isConnected
      ensures trace == old(trace) + [WifiReported(None, false, ssid), StaDisconnectedNotified]
    {
      Tell(WifiReported(None, false, ssid));
      NotifyDisconnected();
    }

    /** "disconnected" is notified and the station is no longer connected. */
    method NotifyDisconnected()
      requires Invariant() && Guarded() && isConnected && |trace| > 0
      modifies this`trace, this`watch, this`progress, this`isConnected
      ensures Invariant() && Guarded() && !isConnected
      ensures trace == old(trace) + [StaDisconnectedNotified]
    {
      if bootstrap {
        ProgressSnoc(trace, StaDisconnectedNotified, ssid, password, settings.webServerHttps);
        progress := Advance(progress, StaDisconnectedNotified, ssid, password, settings.webServerHttps);
      }
      WatchedSnoc(trace, StaDisconnectedNotified);
      trace := trace + [StaDisconnectedNotified];
      watch := Observe(watch, false, StaDisconnectedNotified);
      isConnected := false;
    }
  }
}
