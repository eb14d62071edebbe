/**
 * The framework's configuration state: Wi-Fi credentials, the fixed web-app key and the
 * display timings, loaded from the flash store and then overridden by a configuration text
 * in a small TOML subset; the setters that change them and write them back; the key the web
 * app is started with; and the fan-out of notifications to the subscribed observers.
 */
module Framework {
  import opened Wrappers
  import opened Bytes
  import opened Text
  import Utf8

  type u64 = x: int | 0 <= x <= 0xFFFF_FFFF_FFFF_FFFF

  /** The flash keys of the three stored configurations. */
  const WifiConfigKey: Str := "__wifi__"
  const FixedConfigKey: Str := "__fixed_key__"
  const DisplayConfigKey: Str := "__display_"

  datatype WebConfigMode = AP | STA

  /** The serialised configurations (their JSON text is not modelled, only what it holds). */
  datatype Stored =
    | WifiConfig(ssid: Option<Str>, password: Option<Str>)
    | FixedKeyConfig(key: Option<Str>)
    | DisplayConfig(dimmingTimeout: Option<u64>, dimmingPercent: Option<byte>, blackoutTimeout: Option<u64>)

  datatype StoreError = StorageError

  /**
   * The flash key-value store. Each operation may fail (the storage driver's answer is the
   * `ok` argument); a failed one changes nothing.
   */
  class FlashMap {
    var entries: map<Str, Stored>

    constructor (entries: map<Str, Stored>)
      ensures this.entries == entries
    {
      this.entries := entries;
    }

    method Store(key: Str, value: Stored, ok: bool) returns (r: Result<(), StoreError>)
      modifies this
      ensures r.Ok? <==> ok
      ensures entries == if ok then old(entries)[key := value] else old(entries)
    {
      if ok {
        entries := entries[key := value];
        r := Ok(());
      } else {
        r := Err(StorageError);
      }
    }

    method Fetch(key: Str, ok: bool) returns (r: Result<Option<Stored>, StoreError>)
      ensures r == if !ok then Err(StorageError) else if key in entries then Ok(Some(entries[key])) else Ok(None)
    {
      if !ok {
        r := Err(StorageError);
      } else if key in entries {
        r := Ok(Some(entries[key]));
      } else {
        r := Ok(None);
      }
    }

    method Remove(key: Str, ok: bool) returns (r: Result<(), StoreError>)
      modifies this
      ensures r.Ok? <==> ok
      ensures entries == if ok then old(entries) - {key} else old(entries)
    {
      if ok {
        entries := entries - {key};
        r := Ok(());
      } else {
        r := Err(StorageError);
      }
    }
  }

  // ---------------------------------------------------------------------------------------
  // The configuration and its text

  /** The configurable fields of the framework. */
  datatype Config = Config(wifiSsid: Option<Str>, wifiPassword: Option<Str>, fixedKey: Option<Str>,
                           dimmingTimeout: u64, dimmingPercent: byte, blackoutTimeout: u64)

  /** Values applied from the flash store: the Wi-Fi and fixed-key records replace the fields
   *  they hold (absent values included), the display record only the values it has. */
  function FromStore(c: Config, s: Option<Stored>): (r: Config)
    ensures s.None? || s.value.FixedKeyConfig? || s.value.DisplayConfig? ==>
              r.wifiSsid == c.wifiSsid && r.wifiPassword == c.wifiPassword
    ensures s.Some? && s.value.WifiConfig? ==> r.wifiSsid == s.value.ssid && r.wifiPassword == s.value.password
    ensures s.Some? && s.value.FixedKeyConfig? ==> r.fixedKey == s.value.key
    ensures s.Some? && s.value.DisplayConfig? ==>
              r.dimmingTimeout == s.value.dimmingTimeout.GetOr(c.dimmingTimeout) &&
              r.dimmingPercent == s.value.dimmingPercent.GetOr(c.dimmingPercent) &&
              r.blackoutTimeout == s.value.blackoutTimeout.GetOr(c.blackoutTimeout)
  {
    match s
    case None => c
    case Some(WifiConfig(ssid, password)) => c.(wifiSsid := ssid, wifiPassword := password)
    case Some(FixedKeyConfig(key)) => c.(fixedKey := key)
    case Some(DisplayConfig(dt, dp, bt)) =>
      c.(dimmingTimeout := dt.GetOr(c.dimmingTimeout), dimmingPercent := dp.GetOr(c.dimmingPercent),
         blackoutTimeout := bt.GetOr(c.blackoutTimeout))
  }

  /** The stored record of the expected kind under `key`, when the fetch succeeded and found one. */
  function Fetched(entries: map<Str, Stored>, key: Str, ok: bool, wifi: bool, fixed: bool): (r: Option<Stored>)
    ensures r.Some? ==> ok && key in entries && r.value == entries[key]
    ensures r.Some? ==> (r.value.WifiConfig? && wifi) || (r.value.FixedKeyConfig? && fixed) ||
                        (r.value.DisplayConfig? && !wifi && !fixed)
  {
    if ok && key in entries && (if wifi then entries[key].WifiConfig? else if fixed then entries[key].FixedKeyConfig? else entries[key].DisplayConfig?)
    then Some(entries[key]) else None
  }

  /** The three configurations read from flash, in the order `load_config_flash_then_toml` reads them. */
  function FlashConfig(c: Config, entries: map<Str, Stored>, wifiOk: bool, fixedOk: bool, displayOk: bool): Config
  {
    var c1 := FromStore(c, Fetched(entries, WifiConfigKey, wifiOk, true, false));
    var c2 := FromStore(c1, Fetched(entries, FixedConfigKey, fixedOk, false, true));
    FromStore(c2, Fetched(entries, DisplayConfigKey, displayOk, false, false))
  }

  /** The configuration keys the framework recognises, as `section_key`. */
  const RecognisedKeys: set<Str> := {"wifi_ssid", "wifi_password", "fixed_key", "display_dimming_timeout",
                                     "display_dimming_percent", "display_blackout_timeout"}

  /**
   * Assigning `value` to the field a section-qualified key names: strings are taken as
   * they are, numbers must parse (`u64` timeouts, a `u8` percentage); a number that does not
   * parse is an error and assigns nothing.
   */
  function AssignKey(c: Config, key: Str, value: Str): (r: (Config, bool))
    ensures r.1 ==> r.0 == c && key in {"display_dimming_timeout", "display_dimming_percent", "display_blackout_timeout"}
    ensures key !in RecognisedKeys ==> r == (c, false)
    ensures key == "wifi_ssid" ==> r == (c.(wifiSsid := Some(value)), false)
    ensures key == "wifi_password" ==> r == (c.(wifiPassword := Some(value)), false)
    ensures key == "fixed_key" ==> r == (c.(fixedKey := Some(value)), false)
    ensures key == "display_dimming_percent" ==>
              (r.1 <==> ParseUnsigned(value, 10, U8Max).None?) &&
              (!r.1 ==> r.0 == c.(dimmingPercent := ParseUnsigned(value, 10, U8Max).value))
    ensures key == "display_dimming_timeout" ==>
              (r.1 <==> ParseUnsigned(value, 10, U64Max).None?) &&
              (!r.1 ==> r.0 == c.(dimmingTimeout := ParseUnsigned(value, 10, U64Max).value))
    ensures key == "display_blackout_timeout" ==>
              (r.1 <==> ParseUnsigned(value, 10, U64Max).None?) &&
              (!r.1 ==> r.0 == c.(blackoutTimeout := ParseUnsigned(value, 10, U64Max).value))
  {
    if key == "wifi_ssid" then (c.(wifiSsid := Some(value)), false)
    else if key == "wifi_password" then (c.(wifiPassword := Some(value)), false)
    else if key == "fixed_key" then (c.(fixedKey := Some(value)), false)
    else if key == "display_dimming_timeout" then
      match ParseUnsigned(value, 10, U64Max)
      case Some(n) => (c.(dimmingTimeout := n), false)
      case None => (c, true)
    else if key == "display_dimming_percent" then
      match ParseUnsigned(value, 10, U8Max)
      case Some(n) => (c.(dimmingPercent := n), false)
      case None => (c, true)
    else if key == "display_blackout_timeout" then
      match ParseUnsigned(value, 10, U64Max)
      case Some(n) => (c.(blackoutTimeout := n), false)
      case None => (c, true)
    else (c, false)
  }

  /** The state of the line-by-line reading: the configuration so far, the current section, and whether a line failed. */
  datatype Reading = Reading(config: Config, section: Str, failed: bool)

  /** A line naming a section: `[` and `]` around the section's name. */
  predicate IsSectionLine(line: Str)
  {
    StartsWith(line, "[") && EndsWith(line, "]")
  }

  /** A section line has the two brackets, so at least two characters. */
  lemma SectionLineLength(line: Str)
    requires IsSectionLine(line)
    ensures |line| >= 2 && line[0] == '[' && line[|line| - 1] == ']'
  {
    assert line[..1][0] == line[0];
    assert line[|line| - 1..][0] == line[|line| - 1];
  }

  /**
   * One line of the configuration text, after trimming: nothing for an empty line or a
   * comment, a new section for `[name]`, an assignment for `key = value` (key and value
   * trimmed, the value stripped of surrounding quotes, the key qualified by the section),
   * and nothing for any other line.
   */
  function ReadLine(c: Config, section: Str, raw: Str): (r: Reading)
    ensures r.failed ==> r.config == c && r.section == section
    ensures r.section != section ==> IsSectionLine(Trim(raw)) && r.config == c
    ensures r.config != c ==> '=' in Trim(raw)
  {
    var line := Trim(raw);
    if line == [] || line[0] == '#' then Reading(c, section, false)
    else if IsSectionLine(line) then
      SectionLineLength(line);
      Reading(c, line[1..|line| - 1], false)
    else match SplitOnce(line, '=')
      case None => Reading(c, section, false)
      case Some((key, value)) =>
        var a := AssignKey(c, section + "_" + Trim(key), TrimQuotes(Trim(value)));
        Reading(a.0, section, a.1)
  }

  /** An empty line or a comment changes nothing. */
  lemma ReadLineSkips(c: Config, section: Str, raw: Str)
    requires Trim(raw) == [] || Trim(raw)[0] == '#'
    ensures ReadLine(c, section, raw) == Reading(c, section, false)
  {
  }

  /** `[name]` opens the section `name` and changes nothing else. */
  lemma ReadLineOpensSection(c: Config, section: Str, raw: Str)
    requires Trim(raw) != [] && Trim(raw)[0] != '#' && IsSectionLine(Trim(raw))
    ensures |Trim(raw)| >= 2
    ensures ReadLine(c, section, raw) == Reading(c, Trim(raw)[1..|Trim(raw)| - 1], false)
  {
    SectionLineLength(Trim(raw));
  }

  /** Any other line without '=' changes nothing. */
  lemma ReadLineIgnores(c: Config, section: Str, raw: Str)
    requires Trim(raw) != [] && Trim(raw)[0] != '#' && !IsSectionLine(Trim(raw))
    requires SplitOnce(Trim(raw), '=').None?
    ensures ReadLine(c, section, raw) == Reading(c, section, false)
  {
  }

  /** A line with '=' assigns its value to its section-qualified key. */
  lemma ReadLineAssigns(c: Config, section: Str, raw: Str, key: Str, value: Str)
    requires Trim(raw) != [] && Trim(raw)[0] != '#' && !IsSectionLine(Trim(raw))
    requires SplitOnce(Trim(raw), '=') == Some((key, value))
    ensures var a := AssignKey(c, section + "_" + Trim(key), TrimQuotes(Trim(value)));
            ReadLine(c, section, raw) == Reading(a.0, section, a.1)
  {
  }

  /** The configuration text read line by line, stopping right after the first line that fails. */
  function ReadLines(c: Config, section: Str, lines: seq<Str>): (r: Reading)
    decreases |lines|
  {
    if lines == [] then Reading(c, section, false)
    else
      var l := ReadLine(c, section, lines[0]);
      if l.failed then l else ReadLines(l.config, l.section, lines[1..])
  }

  /** Reading the lines from the `i`-th on is reading the `i`-th and then, unless it failed, the rest. */
  lemma ReadLinesStep(c: Config, section: Str, lines: seq<Str>, i: nat)
    requires i < |lines|
    ensures var l := ReadLine(c, section, lines[i]);
            ReadLines(c, section, lines[i..]) == if l.failed then l else ReadLines(l.config, l.section, lines[i + 1..])
  {
    assert lines[i..][0] == lines[i] && lines[i..][1..] == lines[i + 1..];
  }

  /**
   * Reading fails fast: the lines after a failing one are never looked at, and what was
   * assigned before it stays assigned; otherwise reading goes on from where the first part left.
   */
  lemma {:induction false} ReadLinesAppend(c: Config, section: Str, a: seq<Str>, b: seq<Str>)
    ensures var first := ReadLines(c, section, a);
            ReadLines(c, section, a + b) ==
              if first.failed then first else ReadLines(first.config, first.section, b)
    decreases |a|
  {
    if a == [] {
      assert a + b == b;
    } else {
      assert (a + b)[0] == a[0] && (a + b)[1..] == a[1..] + b;
      var l := ReadLine(c, section, a[0]);
      if !l.failed {
        ReadLinesAppend(l.config, l.section, a[1..], b);
      }
    }
  }

  /**
   * A failing line ends the reading with the configuration as the lines before it left it,
   * whatever follows.
   */
  lemma FailingLineStops(c: Config, section: Str, before: seq<Str>, line: Str, after: seq<Str>)
    requires !ReadLines(c, section, before).failed
    requires var p := ReadLines(c, section, before); ReadLine(p.config, p.section, line).failed
    ensures ReadLines(c, section, before + [line] + after) == ReadLines(c, section, before).(failed := true)
  {
    var p := ReadLines(c, section, before);
    ReadLinesAppend(c, section, before, [line] + after);
    assert before + [line] + after == before + ([line] + after);
  }

  /** Comments and lines without '=' change nothing but (for `[name]`) the section. */
  lemma NoAssignmentWithoutEquals(c: Config, section: Str, raw: Str)
    requires '=' !in Trim(raw)
    ensures ReadLine(c, section, raw).config == c && !ReadLine(c, section, raw).failed
  {
  }

  /**
   * A `key = value` line assigns to the section-qualified key the value trimmed and
   * stripped of its quotes.
   */
  lemma AssignmentLine(c: Config, section: Str, raw: Str, key: Str, value: Str)
    requires Trim(raw) == key + "=" + value && '=' !in key
    requires !IsSectionLine(Trim(raw)) && Trim(raw)[0] != '#'
    ensures var a := AssignKey(c, section + "_" + Trim(key), TrimQuotes(Trim(value)));
            ReadLine(c, section, raw) == Reading(a.0, section, a.1)
  {
    SplitOnceAtFirst(key, '=', value);
  }

  /** What the flash store gives back is what the setters put there. */
  lemma StoredCredentialsLoad(c: Config, entries: map<Str, Stored>, ssid: Str, password: Str,
                              fixedOk: bool, displayOk: bool)
    ensures var f := FlashConfig(c, entries[WifiConfigKey := WifiConfig(Some(ssid), Some(password))], true, fixedOk, displayOk);
            f.wifiSsid == Some(ssid) && f.wifiPassword == Some(password)
  {
  }

  /** Stored display settings come back whole. */
  lemma StoredDisplayLoads(c: Config, entries: map<Str, Stored>, dt: u64, dp: byte, bt: u64, wifiOk: bool, fixedOk: bool)
    ensures var f := FlashConfig(c, entries[DisplayConfigKey := DisplayConfig(Some(dt), Some(dp), Some(bt))], wifiOk, fixedOk, true);
            f.dimmingTimeout == dt && f.dimmingPercent == dp && f.blackoutTimeout == bt
  {
    var e := entries[DisplayConfigKey := DisplayConfig(Some(dt), Some(dp), Some(bt))];
    assert Fetched(e, DisplayConfigKey, true, false, false) == Some(DisplayConfig(Some(dt), Some(dp), Some(bt)));
  }

  /** With the fixed key removed from the store, loading keeps the key the framework had. */
  lemma RemovedFixedKeyLoads(c: Config, entries: map<Str, Stored>, wifiOk: bool, fixedOk: bool, displayOk: bool)
    ensures FlashConfig(c, entries - {FixedConfigKey}, wifiOk, fixedOk, displayOk).fixedKey == c.fixedKey
  {
    var e := entries - {FixedConfigKey};
    assert Fetched(e, FixedConfigKey, fixedOk, false, true).None?;
  }

  // ---------------------------------------------------------------------------------------
  // Notifications

  /** The calls a `FrameworkObserver` receives. */
  datatype Notification =
    | WebappUrlUpdate(url: Str, ssid: Str)
    | InitializationCompleted(status: bool)
    | OtaVersionAvailable(version: Str, newer: bool)
    | OtaStart
    | OtaStatus(text: Str)
    | OtaFailed(text: Str)
    | OtaCompleted(text: Str)
    | WebConfigStarted(key: Str, mode: WebConfigMode)
    | WebConfigStopped
    | WifiStaConnected

  /** A notification received by the observer subscribed under `observer`. */
  datatype Delivery = Delivery(observer: nat, notification: Notification)

  /**
   * One `notify_*` call: the observers receive the notification in subscription order, up
   * to the first one that has been dropped, where `upgrade().unwrap()` panics.
   */
  function Deliveries(observers: seq<nat>, live: set<nat>, n: Notification): (r: seq<Delivery>)
    ensures |r| <= |observers|
    ensures forall i :: 0 <= i < |r| ==> r[i] == Delivery(observers[i], n) && observers[i] in live
    ensures |r| < |observers| ==> observers[|r|] !in live
  {
    if observers == [] || observers[0] !in live then []
    else [Delivery(observers[0], n)] + Deliveries(observers[1..], live, n)
  }

  /**
   * The deliveries of one call are fixed by the first dropped observer: with the first `k`
   * observers alive and the next one dropped (or none left), exactly those `k` are notified.
   */
  lemma {:induction false} DeliveriesUpTo(observers: seq<nat>, live: set<nat>, n: Notification, k: nat)
    requires k <= |observers|
    requires forall j :: 0 <= j < k ==> observers[j] in live
    requires k == |observers| || observers[k] !in live
    ensures Deliveries(observers, live, n) == Deliveries(observers[..k], live, n)
    ensures |Deliveries(observers, live, n)| == k
  {
    if k > 0 {
      DeliveriesUpTo(observers[1..], live, n, k - 1);
      assert observers[..k][1..] == observers[1..][..k - 1];
    }
  }

  /** With the first `i + 1` observers alive, notifying them adds the `i + 1`-th delivery. */
  lemma DeliveriesSnoc(observers: seq<nat>, live: set<nat>, n: Notification, i: nat)
    requires i < |observers|
    requires forall j :: 0 <= j <= i ==> observers[j] in live
    ensures Deliveries(observers[..i + 1], live, n) == Deliveries(observers[..i], live, n) + [Delivery(observers[i], n)]
  {
    var a, b := observers[..i + 1], observers[..i];
    DeliveriesUpTo(a, live, n, i + 1);
    DeliveriesUpTo(b, live, n, i);
    var r, q := Deliveries(a, live, n), Deliveries(b, live, n);
    var e := q + [Delivery(observers[i], n)];
    forall j | 0 <= j < i + 1
      ensures r[j] == e[j]
    {
      if j < i {
        assert r[j] == Delivery(a[j], n) && q[j] == Delivery(b[j], n);
      } else {
        assert r[j] == Delivery(a[j], n);
      }
    }
    assert r == e;
  }

  /**
   * The loop of a `notify_*` call: the observers `subscribed` are called in order until one
   * turns out to be dropped; `sent` are the calls made, `panicked` whether one was dropped.
   */
  method Deliver(subscribed: seq<nat>, live: set<nat>, n: Notification) returns (sent: seq<Delivery>, panicked: bool)
    ensures sent == Deliveries(subscribed, live, n)
    ensures panicked <==> exists i :: 0 <= i < |subscribed| && subscribed[i] !in live
  {
    sent := [];
    var i := 0;
    while i < |subscribed|
      invariant 0 <= i <= |subscribed|
      invariant forall j :: 0 <= j < i ==> subscribed[j] in live
      invariant sent == Deliveries(subscribed[..i], live, n)
    {
      if subscribed[i] !in live {
        DeliveriesUpTo(subscribed, live, n, i);
        return sent, true;
      }
      DeliveriesSnoc(subscribed, live, n, i);
      sent := sent + [Delivery(subscribed[i], n)];
      i := i + 1;
    }
    assert subscribed[..i] == subscribed;
    return sent, false;
  }

  /** The commands the framework publishes to the web servers. */
  datatype WebServerCommand = Start | Stop

  // ---------------------------------------------------------------------------------------
  // The web-app key

  /**
   * The characters of a generated key, the byte string `number_to_ascii_from_list` indexes:
   * capitals, small letters, digits and six symbols, without the easily confused
   * i, I, l, 0, O and o.
   */
  const Capitals: Str := "ABCDEFGHJKLMNPQRSTUVWXYZ"
  const Smalls: Str := "abcdefghjkmnpqrstuvwxyz"
  const Others: Str := "123456789-/$@?!"
  const Charset: Str := Capitals + Smalls + Others

  /** The key alphabet described by ranges. */
  predicate KeyChar(c: char)
  {
    ('A' <= c <= 'Z' && c != 'I' && c != 'O') || ('a' <= c <= 'z' && c != 'i' && c != 'l' && c != 'o') ||
    ('1' <= c <= '9') || c == '-' || c == '/' || c == '$' || c == '@' || c == '?' || c == '!'
  }

  /** The character set has 62 characters, all ASCII, all in the alphabet. */
  lemma CharsetInAlphabet()
    ensures |Charset| == 62
    ensures forall i :: 0 <= i < |Charset| ==> KeyChar(Charset[i]) && Charset[i] as int < 0x80
  {
    assert forall i :: 0 <= i < |Capitals| ==> KeyChar(Capitals[i]) && Capitals[i] as int < 0x80;
    assert forall i :: 0 <= i < |Smalls| ==> KeyChar(Smalls[i]) && Smalls[i] as int < 0x80;
    assert forall i :: 0 <= i < |Others| ==> KeyChar(Others[i]) && Others[i] as int < 0x80;
  }

  /** Every character of the alphabet is in the character set. */
  lemma AlphabetInCharset(c: char)
    requires KeyChar(c)
    ensures c in Charset
  {
    if 'A' <= c <= 'Z' {
      assert c in Capitals;
    } else if 'a' <= c <= 'z' {
      assert c in Smalls;
    } else {
      assert c in Others;
    }
  }

  /** `number_to_ascii_from_list`: a random byte mapped onto the character set. */
  function NumberToAsciiFromList(n: byte): (c: byte)
    ensures c < 0x80
  {
    CharsetInAlphabet();
    Charset[n % 62] as int
  }

  /** The character a byte picks is the one at its remainder modulo 62. */
  lemma NumberToAsciiPicks(n: byte)
    ensures NumberToAsciiFromList(n) as char == Charset[n % 62]
    ensures KeyChar(NumberToAsciiFromList(n) as char)
  {
    CharsetInAlphabet();
  }

  /**
   * The key `start_web_app` generates from the random bytes `getrandom` gives: one
   * character-set character per byte, the first one upper-cased.
   */
  function GeneratedKey(random: seq<byte>): (k: Str)
    requires |random| > 0
    ensures |k| == |random|
  {
    var mapped := seq(|random|, i requires 0 <= i < |random| => NumberToAsciiFromList(random[i]) as char);
    [AsciiUpper(mapped[0])] + mapped[1..]
  }

  /**
   * A generated key is made of character-set characters only (the upper-cased first one
   * too, the set having the capital of each of its small letters), it does not start with
   * a small letter, and each later character is the one its random byte picks.
   */
  lemma GeneratedKeyCharacters(random: seq<byte>)
    requires |random| > 0
    ensures forall i :: 0 <= i < |random| ==> GeneratedKey(random)[i] in Charset
    ensures !('a' <= GeneratedKey(random)[0] <= 'z')
    ensures forall i :: 0 < i < |random| ==> GeneratedKey(random)[i] == Charset[random[i] % 62]
  {
    var k := GeneratedKey(random);
    forall i | 0 <= i < |random|
      ensures k[i] in Charset
      ensures i > 0 ==> k[i] == Charset[random[i] % 62]
    {
      NumberToAsciiPicks(random[i]);
      AlphabetInCharset(k[i]);
    }
  }

  /** The bytes of the key buffer, once mapped and upper-cased, decode to the generated key. */
  lemma KeyOfBuffer(random: seq<byte>, b: seq<byte>)
    requires |b| == |random| > 0
    requires b[0] as char == AsciiUpper(NumberToAsciiFromList(random[0]) as char)
    requires forall j :: 0 < j < |b| ==> b[j] == NumberToAsciiFromList(random[j])
    ensures Utf8.Valid(b) && Utf8.Chars(b) == GeneratedKey(random)
  {
    assert forall j :: 0 <= j < |b| ==> b[j] < 0x80;
    Utf8.CharsOfAscii(b);
    var k, g := Utf8.Chars(b), GeneratedKey(random);
    assert forall j :: 0 <= j < |b| ==> k[j] == g[j];
  }

  /** `number_to_ascii_from_list` applied to every byte of the buffer, in place. */
  method MapToCharset(buf: array<byte>)
    modifies buf
    ensures forall j :: 0 <= j < buf.Length ==> buf[j] == NumberToAsciiFromList(old(buf[j]))
  {
    for i := 0 to buf.Length
      invariant forall j :: 0 <= j < i ==> buf[j] == NumberToAsciiFromList(old(buf[j]))
      invariant forall j :: i <= j < buf.Length ==> buf[j] == old(buf[j])
    {
      buf[i] := NumberToAsciiFromList(buf[i]);
    }
  }

  /**
   * The key generated in a buffer of `|random|` bytes that `getrandom` fills with `random`:
   * each byte mapped onto the character set, then the first one upper-cased (`None` where
   * the empty buffer has no first byte and the source panics).
   */
  method GenerateKey(random: seq<byte>) returns (key: Option<Str>)
    ensures key.None? <==> |random| == 0
    ensures key.Some? ==> |random| > 0 && key.value == GeneratedKey(random)
  {
    var buf := new byte[|random|](i requires 0 <= i < |random| => random[i]);
    MapToCharset(buf);
    if buf.Length == 0 {
      return None;
    }
    buf[0] := AsciiUpper(buf[0] as char) as int;
    KeyOfBuffer(random, buf[..]);
    return Some(Utf8.Chars(buf[..]));
  }

  class Framework {
    /** `settings.default_fixed_security_key`. */
    const defaultFixedKey: Option<Str>
    /** `settings.web_app_security_key_length`. */
    const keyLength: nat
    const flash: FlashMap

    var wifiSsid: Option<Str>
    var wifiPassword: Option<Str>
    var fixedKey: Option<Str>
    var dimmingTimeout: u64
    var dimmingPercent: byte
    var blackoutTimeout: u64
    var configProcessedOk: Option<bool>
    var wifiOk: Option<bool>
    /** The subscribed observers, in subscription order. */
    var observers: seq<nat>
    /** The notifications the observers have received, in order. */
    var delivered: seq<Delivery>
    /** The commands published to the web servers, in order. */
    var webServerCommands: seq<WebServerCommand>
    /** The key the encryption key was last derived from. */
    var encryptionKeySource: Option<Str>

    /** The configurable fields as one value. */
    function Cfg(): (c: Config)
      reads this
      ensures c.wifiSsid == wifiSsid && c.wifiPassword == wifiPassword && c.fixedKey == fixedKey
      ensures c.dimmingTimeout == dimmingTimeout && c.dimmingPercent == dimmingPercent && c.blackoutTimeout == blackoutTimeout
    {
      Config(wifiSsid, wifiPassword, fixedKey, dimmingTimeout, dimmingPercent, blackoutTimeout)
    }

    /** `Framework::new`: the default fixed key, no credentials, two and five minutes and 10% for the display. */
    constructor (defaultFixedKey: Option<Str>, keyLength: nat, flash: FlashMap)
      ensures this.defaultFixedKey == defaultFixedKey && this.keyLength == keyLength && this.flash == flash
      ensures Cfg() == Config(None, None, defaultFixedKey, 120, 10, 300)
      ensures configProcessedOk == None && wifiOk == None && encryptionKeySource == None
      ensures observers == [] && delivered == [] && webServerCommands == []
    {
      this.defaultFixedKey := defaultFixedKey;
      this.keyLength := keyLength;
      this.flash := flash;
      wifiSsid, wifiPassword, fixedKey := None, None, defaultFixedKey;
      dimmingTimeout, dimmingPercent, blackoutTimeout := 60 * 2, 10, 60 * 5;
      configProcessedOk, wifiOk := None, None;
      observers, delivered, webServerCommands := [], [], [];
      encryptionKeySource := None;
    }

    /**
     * The first part of `load_config_flash_then_toml`: each stored configuration that is
     * fetched and of its kind is applied (`wifiOk`, `fixedOk` and `displayOk` being the
     * store's answers); a failed fetch is skipped.
     */
    method LoadStored(wifiFetchOk: bool, fixedFetchOk: bool, displayFetchOk: bool)
      modifies this`wifiSsid, this`wifiPassword, this`fixedKey, this`dimmingTimeout, this`dimmingPercent,
               this`blackoutTimeout
      ensures Cfg() == FlashConfig(old(Cfg()), flash.entries, wifiFetchOk, fixedFetchOk, displayFetchOk)
    {
      var wifiStore := flash.Fetch(WifiConfigKey, wifiFetchOk);
      if wifiStore.Ok? && wifiStore.value.Some? && wifiStore.value.value.WifiConfig? {
        wifiSsid := wifiStore.value.value.ssid;
        wifiPassword := wifiStore.value.value.password;
      }
      var fixedKeyStore := flash.Fetch(FixedConfigKey, fixedFetchOk);
      if fixedKeyStore.Ok? && fixedKeyStore.value.Some? && fixedKeyStore.value.value.FixedKeyConfig? {
        fixedKey := fixedKeyStore.value.value.key;
      }
      var displayStore := flash.Fetch(DisplayConfigKey, displayFetchOk);
      if displayStore.Ok? && displayStore.value.Some? && displayStore.value.value.DisplayConfig? {
        var d := displayStore.value.value;
        dimmingTimeout := d.dimmingTimeout.GetOr(dimmingTimeout);
        dimmingPercent := d.dimmingPercent.GetOr(dimmingPercent);
        blackoutTimeout := d.blackoutTimeout.GetOr(blackoutTimeout);
      }
    }

    /** The assignment of one `key = value` line to the field its section-qualified key names. */
    method Assign(expandedKey: Str, value: Str) returns (parseError: bool)
      modifies this`wifiSsid, this`wifiPassword, this`fixedKey, this`dimmingTimeout, this`dimmingPercent,
               this`blackoutTimeout
      ensures (Cfg(), parseError) == AssignKey(old(Cfg()), expandedKey, value)
    {
      parseError := false;
      if expandedKey == "wifi_ssid" {
        wifiSsid := Some(value);
      } else if expandedKey == "wifi_password" {
        wifiPassword := Some(value);
      } else if expandedKey == "fixed_key" {
        fixedKey := Some(value);
      } else if expandedKey == "display_dimming_timeout" {
        match ParseUnsigned(value, 10, U64Max) {
          case Some(n) => dimmingTimeout := n;
          case None => parseError := true;
        }
      } else if expandedKey == "display_dimming_percent" {
        match ParseUnsigned(value, 10, U8Max) {
          case Some(n) => dimmingPercent := n;
          case None => parseError := true;
        }
      } else if expandedKey == "display_blackout_timeout" {
        match ParseUnsigned(value, 10, U64Max) {
          case Some(n) => blackoutTimeout := n;
          case None => parseError := true;
        }
      }
    }

    /**
     * The body of the line loop of `load_config_flash_then_toml`: an empty line or a comment
     * is skipped, `[name]` opens a section, and `key = value` is assigned.
     */
    method ReadConfigLine(section: Str, raw: Str) returns (newSection: Str, parseError: bool)
      modifies this`wifiSsid, this`wifiPassword, this`fixedKey, this`dimmingTimeout, this`dimmingPercent,
               this`blackoutTimeout
      ensures Reading(Cfg(), newSection, parseError) == ReadLine(old(Cfg()), section, raw)
    {
      newSection, parseError := section, false;
      var line := Trim(raw);
      if line == [] || line[0] == '#' {
        ReadLineSkips(old(Cfg()), section, raw);
        return;
      }
      if StartsWith(line, "[") && EndsWith(line, "]") {
        SectionLineLength(line);
        newSection := line[1..|line| - 1];
        ReadLineOpensSection(old(Cfg()), section, raw);
        return;
      }
      match SplitOnce(line, '=') {
        case None =>
          ReadLineIgnores(old(Cfg()), section, raw);
        case Some((k, v)) =>
          ReadLineAssigns(old(Cfg()), section, raw, k, v);
          parseError := Assign(section + "_" + Trim(k), TrimQuotes(Trim(v)));
      }
    }

    /**
     * `load_config_flash_then_toml`: the stored configurations first, then the configuration
     * text, which overrides them line by line and stops at the first number that does not
     * parse.
     */
    method LoadConfigFlashThenToml(toml: Str, wifiFetchOk: bool, fixedFetchOk: bool, displayFetchOk: bool)
      returns (r: Result<(), Str>)
      modifies this`wifiSsid, this`wifiPassword, this`fixedKey, this`dimmingTimeout, this`dimmingPercent,
               this`blackoutTimeout, this`configProcessedOk
      ensures var f := FlashConfig(old(Cfg()), flash.entries, wifiFetchOk, fixedFetchOk, displayFetchOk);
              var end := ReadLines(f, "", Lines(toml));
              Cfg() == end.config && (r.Ok? <==> !end.failed)
      ensures r.Err? ==> r.error == "Parse Error"
      ensures configProcessedOk == Some(r.Ok?)
      ensures InitializationOk() <==> r.Ok? && wifiSsid.Some? && wifiPassword.Some?
    {
      LoadStored(wifiFetchOk, fixedFetchOk, displayFetchOk);
      ghost var f := Cfg();

      var section: Str := "";
      var lines := Lines(toml);
      var i := 0;
      while i < |lines|
        invariant 0 <= i <= |lines|
        invariant ReadLines(f, "", lines) == ReadLines(Cfg(), section, lines[i..])
      {
        ghost var before, inSection := Cfg(), section;
        var parseErrors;
        section, parseErrors := ReadConfigLine(section, lines[i]);
        ReadLinesStep(before, inSection, lines, i);
        if parseErrors {
          configProcessedOk := Some(false);
          return Err("Parse Error");
        }
        i := i + 1;
      }
      configProcessedOk := Some(true);
      return Ok(());
    }

    /** `initialization_ok`: the configuration was read without error and has both credentials. */
    function InitializationOk(): (ok: bool)
      reads this
      ensures ok ==> wifiSsid.Some? && wifiPassword.Some?
      ensures ok <==> configProcessedOk == Some(true) && wifiSsid != None && wifiPassword != None
    {
      configProcessedOk == Some(true) && wifiSsid != None && wifiPassword != None
    }

    /** `boot_completed`: the Wi-Fi was reported up. */
    function BootCompleted(): (ok: bool)
      reads this
      ensures ok <==> wifiOk == Some(true)
    {
      wifiOk == Some(true)
    }

    /**
     * One `notify_*`: each observer in subscription order receives `n`; `panicked` when one was
     * dropped, the ones before it having been notified. `live` are the observers still alive.
     */
    method Notify(n: Notification, live: set<nat>) returns (panicked: bool)
      modifies this`delivered
      ensures delivered == old(delivered) + Deliveries(observers, live, n)
      ensures panicked <==> exists i :: 0 <= i < |observers| && observers[i] !in live
    {
      var sent;
      sent, panicked := Deliver(observers, live, n);
      delivered := delivered + sent;
    }

    /** `subscribe`: the observer is notified after all earlier ones. */
    method Subscribe(observer: nat)
      modifies this`observers
      ensures observers == old(observers) + [observer]
    {
      observers := observers + [observer];
    }

    /** `report_wifi`: records the status and tells the observers the web app's address, or that there is none. */
    method ReportWifi(status: bool, url: Str, ssid: Str, live: set<nat>) returns (panicked: bool)
      modifies this`wifiOk, this`delivered
      ensures wifiOk == Some(status)
      ensures delivered == old(delivered) +
                Deliveries(observers, live, WebappUrlUpdate(if status then url else "N/A - WiFi not connected", ssid))
      ensures panicked <==> exists i :: 0 <= i < |observers| && observers[i] !in live
    {
      var webConfigUrl := if status then url else "N/A - WiFi not connected";
      wifiOk := Some(status);
      panicked := Notify(WebappUrlUpdate(webConfigUrl, ssid), live);
    }

    /** `set_fixed_key`: an empty key clears the fixed key and removes it from the store; any other is kept and stored. */
    method SetFixedKey(key: Str, ok: bool) returns (r: Result<(), StoreError>)
      modifies this`fixedKey, flash
      ensures fixedKey == if key == [] then None else Some(key)
      ensures r.Ok? <==> ok
      ensures flash.entries == if !ok then old(flash.entries)
                               else if key == [] then old(flash.entries) - {FixedConfigKey}
                               else old(flash.entries)[FixedConfigKey := FixedKeyConfig(Some(key))]
    {
      if key == [] {
        fixedKey := None;
        r := flash.Remove(FixedConfigKey, ok);
      } else {
        fixedKey := Some(key);
        r := flash.Store(FixedConfigKey, FixedKeyConfig(Some(key)), ok);
      }
    }

    /** `erase_stored_fixed_key`: the stored key is removed (a failure is ignored) and the default restored. */
    method EraseStoredFixedKey(ok: bool)
      modifies this`fixedKey, flash
      ensures fixedKey == defaultFixedKey
      ensures flash.entries == if ok then old(flash.entries) - {FixedConfigKey} else old(flash.entries)
    {
      var _ := flash.Remove(FixedConfigKey, ok);
      fixedKey := defaultFixedKey;
    }

    /** `erase_stored_wifi_credentials`: the stored credentials are removed (a failure is ignored) and forgotten. */
    method EraseStoredWifiCredentials(ok: bool)
      modifies this`wifiSsid, this`wifiPassword, flash
      ensures wifiSsid == None && wifiPassword == None
      ensures flash.entries == if ok then old(flash.entries) - {WifiConfigKey} else old(flash.entries)
    {
      var _ := flash.Remove(WifiConfigKey, ok);
      wifiSsid := None;
      wifiPassword := None;
    }

    /** `set_wifi_credentials`: the credentials are taken whether or not storing them succeeds. */
    method SetWifiCredentials(ssid: Str, password: Str, ok: bool) returns (r: Result<(), StoreError>)
      modifies this`wifiSsid, this`wifiPassword, flash
      ensures wifiSsid == Some(ssid) && wifiPassword == Some(password)
      ensures r.Ok? <==> ok
      ensures flash.entries == if ok then old(flash.entries)[WifiConfigKey := WifiConfig(Some(ssid), Some(password))]
                               else old(flash.entries)
    {
      wifiSsid := Some(ssid);
      wifiPassword := Some(password);
      r := flash.Store(WifiConfigKey, WifiConfig(Some(ssid), Some(password)), ok);
    }

    /** `set_display_settings`: the settings are taken whether or not storing them succeeds. */
    method SetDisplaySettings(dimmingTimeout: u64, dimmingPercent: byte, blackoutTimeout: u64, ok: bool)
      returns (r: Result<(), StoreError>)
      modifies this`dimmingTimeout, this`dimmingPercent, this`blackoutTimeout, flash
      ensures this.dimmingTimeout == dimmingTimeout && this.dimmingPercent == dimmingPercent
      ensures this.blackoutTimeout == blackoutTimeout
      ensures r.Ok? <==> ok
      ensures flash.entries ==
                if ok then old(flash.entries)[DisplayConfigKey := DisplayConfig(Some(dimmingTimeout), Some(dimmingPercent), Some(blackoutTimeout))]
                else old(flash.entries)
    {
      this.dimmingTimeout := dimmingTimeout;
      this.dimmingPercent := dimmingPercent;
      this.blackoutTimeout := blackoutTimeout;
      r := flash.Store(DisplayConfigKey, DisplayConfig(Some(dimmingTimeout), Some(dimmingPercent), Some(blackoutTimeout)), ok);
    }

    /**
     * `start_web_app`: the key is the fixed key when there is one; otherwise it is generated
     * in place from `random` (the bytes `getrandom` fills the buffer with), which panics when
     * the key length is 0. The encryption key is derived from it, the web servers are told
     * to start, and the observers that the web configuration started with it.
     */
    method StartWebApp(random: seq<byte>, mode: WebConfigMode, live: set<nat>) returns (panicked: bool, key: Str)
      requires |random| == keyLength
      modifies this`encryptionKeySource, this`webServerCommands, this`delivered
      ensures fixedKey.None? && keyLength == 0 ==> panicked && unchanged(this)
      ensures !(fixedKey.None? && keyLength == 0) ==>
                key == (if fixedKey.Some? then fixedKey.value else GeneratedKey(random)) &&
                encryptionKeySource == Some(key) &&
                webServerCommands == old(webServerCommands) + [Start] &&
                delivered == old(delivered) + Deliveries(observers, live, WebConfigStarted(key, mode)) &&
                (panicked <==> exists i :: 0 <= i < |observers| && observers[i] !in live)
    {
      if fixedKey.Some? {
        key := fixedKey.value;
      } else {
        var generated := GenerateKey(random);
        if generated.None? {
          return true, [];
        }
        key := generated.value;
      }
      encryptionKeySource := Some(key);
      webServerCommands := webServerCommands + [Start];
      panicked := Notify(WebConfigStarted(key, mode), live);
    }

    /** `stop_web_app`: the web servers are told to stop and the observers that the web configuration stopped. */
    method StopWebApp(live: set<nat>) returns (panicked: bool)
      modifies this`webServerCommands, this`delivered
      ensures webServerCommands == old(webServerCommands) + [Stop]
      ensures delivered == old(delivered) + Deliveries(observers, live, WebConfigStopped)
      ensures panicked <==> exists i :: 0 <= i < |observers| && observers[i] !in live
    {
      webServerCommands := webServerCommands + [Stop];
      panicked := Notify(WebConfigStopped, live);
    }
  }
}
