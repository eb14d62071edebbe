/**
 * The licence check: a PASETO token is kept in the flash partition named "lic" behind a
 * 10-byte header (a magic prefix and the little-endian token length), obfuscated with a
 * repeating-key XOR and URL-safe base64; the licence it grants names the MAC address of the
 * one device it is valid for.
 */
module License {
  import opened Bytes
  import opened Wrappers
  import Utf8

  function Pow2(n: nat): (p: nat)
    ensures p >= 1
  {
    if n == 0 then 1 else 2 * Pow2(n - 1)
  }

  /** Bitwise exclusive or of the low `n` bits of `a` and `b`, least significant bit first. */
  function XorBits(a: nat, b: nat, n: nat): (r: nat)
    ensures r < Pow2(n)
  {
    if n == 0 then 0 else (a % 2 + b % 2) % 2 + 2 * XorBits(a / 2, b / 2, n - 1)
  }

  /** Exclusive or with the same bits undoes itself. */
  lemma {:induction false} XorBitsTwice(a: nat, b: nat, n: nat)
    requires a < Pow2(n)
    ensures XorBits(XorBits(a, b, n), b, n) == a
  {
    if n > 0 {
      var d := (a % 2 + b % 2) % 2;
      var rest := XorBits(a / 2, b / 2, n - 1);
      var x := XorBits(a, b, n);
      assert x == d + 2 * rest && 0 <= d < 2;
      assert x % 2 == d && x / 2 == rest;
      assert a / 2 < Pow2(n - 1);
      XorBitsTwice(a / 2, b / 2, n - 1);
      assert XorBits(x, b, n) == (d + b % 2) % 2 + 2 * (a / 2);
      XorBitTwice(a % 2, b % 2);
    }
  }

  /** On one bit: XOR twice with the same bit gives the bit back. */
  lemma XorBitTwice(p: nat, q: nat)
    requires p < 2 && q < 2
    ensures ((p + q) % 2 + q) % 2 == p
  {
    if p == 0 {
      if q == 0 { assert ((0 + 0) % 2 + 0) % 2 == 0; } else { assert ((0 + 1) % 2 + 1) % 2 == 0; }
    } else {
      if q == 0 { assert ((1 + 0) % 2 + 0) % 2 == 1; } else { assert ((1 + 1) % 2 + 1) % 2 == 1; }
    }
  }

  /** `a ^ b` on two bytes. */
  function XorByte(a: byte, b: byte): (r: byte)
  {
    assert Pow2(8) == 256;
    XorBits(a, b, 8)
  }

  /** XOR with the same byte undoes itself. */
  lemma XorByteTwice(a: byte, b: byte)
    ensures XorByte(XorByte(a, b), b) == a
  {
    assert Pow2(8) == 256;
    XorBitsTwice(a, b, 8);
  }

  /**
   * `xor(data, key)`: each byte XORed with the key byte at the same position, the key
   * repeated as often as needed. `i % key.len()` is evaluated once per data byte, so an
   * empty key panics on any data but is never touched by empty data (`XorPanics`).
   */
  function Xor(data: seq<byte>, key: seq<byte>): (r: seq<byte>)
    requires !XorPanics(data, key)
    ensures |r| == |data|
    ensures forall i :: 0 <= i < |data| ==> r[i] == XorByte(data[i], key[i % |key|])
  {
    seq(|data|, i requires 0 <= i < |data| => XorByte(data[i], key[i % |key|]))
  }

  /** `xor` panics exactly when there is a byte to XOR and no key byte to XOR it with. */
  predicate XorPanics(data: seq<byte>, key: seq<byte>)
  {
    |data| > 0 && |key| == 0
  }

  /** With a fixed key, `xor` is its own inverse. */
  lemma XorInvolution(data: seq<byte>, key: seq<byte>)
    requires !XorPanics(data, key)
    ensures Xor(Xor(data, key), key) == data
  {
    var once := Xor(data, key);
    forall i | 0 <= i < |data|
      ensures Xor(once, key)[i] == data[i]
    {
      XorByteTwice(data[i], key[i % |key|]);
    }
  }

  /**
   * The `URL_SAFE` base64 engine, left abstract: an encoder from bytes to text (as its
   * UTF-8 bytes) and a decoder that may reject its input.
   */
  datatype Base64 = Base64(encode: seq<byte> -> seq<byte>, decode: seq<byte> -> Option<seq<byte>>)

  /** Decoding gives back whatever was encoded. */
  ghost predicate RoundTrips(b: Base64)
  {
    forall x :: b.decode(b.encode(x)) == Some(x)
  }

  /** `encode_with_xor(input, key)`: its text, or `None` where `xor` panics. */
  function EncodeWithXor(input: seq<byte>, key: seq<byte>, b: Base64): (r: Option<seq<byte>>)
    ensures r.None? <==> XorPanics(input, key)
    ensures r.Some? && RoundTrips(b) ==> b.decode(r.value).Some? && |b.decode(r.value).value| == |input|
  {
    if XorPanics(input, key) then None else Some(b.encode(Xor(input, key)))
  }

  /** What `decode_with_xor` does: its text, its error, or a panic. */
  datatype Decoded = Text(text: seq<byte>) | DecodeError | Panic

  /**
   * `decode_with_xor(encoded, key)` as written: base64 that does not decode reaches
   * `unwrap()` and panics, so its declared error is never returned. What decodes is
   * XORed (panicking on an empty key, as `Xor` says) and read with `from_utf8_lossy`,
   * which always succeeds.
   */
  function DecodeWithXorAsWritten(encoded: seq<byte>, key: seq<byte>, b: Base64): (r: Decoded)
    ensures !r.DecodeError?
    ensures r.Panic? <==> b.decode(encoded).None? || XorPanics(b.decode(encoded).value, key)
    ensures r.Text? ==> Utf8.Valid(r.text)
  {
    match b.decode(encoded)
    case None => Panic
    case Some(decoded) => Unmasked(decoded, key)
  }

  /** The XOR and `from_utf8_lossy` steps shared by both versions of the decode. */
  function Unmasked(decoded: seq<byte>, key: seq<byte>): (r: Decoded)
    ensures r.Panic? <==> XorPanics(decoded, key)
    ensures !r.DecodeError? && (r.Text? ==> Utf8.Valid(r.text))
  {
    if XorPanics(decoded, key) then Panic
    else
      Utf8.LossyIsValid(Xor(decoded, key));
      Text(Utf8.Lossy(Xor(decoded, key)))
  }

  /**
   * `decode_with_xor` with the error returned rather than unwrapped: the base64 decoding
   * failure is the function's own `Err`.
   */
  function DecodeWithXor(encoded: seq<byte>, key: seq<byte>, b: Base64): (r: Decoded)
    ensures r.Panic? <==> b.decode(encoded).Some? && XorPanics(b.decode(encoded).value, key)
    ensures r.DecodeError? <==> b.decode(encoded).None?
    ensures r.Text? ==> Utf8.Valid(r.text)
    ensures b.decode(encoded).Some? ==> r == DecodeWithXorAsWritten(encoded, key, b)
  {
    match b.decode(encoded)
    case None => DecodeError
    case Some(decoded) => Unmasked(decoded, key)
  }

  /** The decode `load_license` runs: as written, or with the base64 error returned. */
  function DecodeToken(asWritten: bool, encoded: seq<byte>, key: seq<byte>, b: Base64): (r: Decoded)
  {
    if asWritten then DecodeWithXorAsWritten(encoded, key, b) else DecodeWithXor(encoded, key, b)
  }

  /** A token that is not base64 makes the code as written panic where an error was meant. */
  lemma DecodePanicsOnBadBase64(encoded: seq<byte>, key: seq<byte>, b: Base64)
    requires b.decode(encoded).None?
    ensures DecodeWithXorAsWritten(encoded, key, b) == Panic
    ensures DecodeWithXor(encoded, key, b) == DecodeError
  {
  }

  /** Well-formed text survives the obfuscation: decoding what was encoded with the same key gives it back. */
  lemma XorRoundTrip(s: seq<byte>, key: seq<byte>, b: Base64)
    requires !XorPanics(s, key) && RoundTrips(b) && Utf8.Valid(s)
    ensures EncodeWithXor(s, key, b).Some?
    ensures DecodeWithXor(EncodeWithXor(s, key, b).value, key, b) == Text(s)
    ensures DecodeWithXorAsWritten(EncodeWithXor(s, key, b).value, key, b) == Text(s)
  {
    var x := Xor(s, key);
    assert b.decode(b.encode(x)) == Some(x);
    assert !XorPanics(x, key);
    XorInvolution(s, key);
    Utf8.LossyOfValid(s);
  }

  // ---------------------------------------------------------------------------------------
  // The licence and where it is stored

  /** The granted licence: its version and the device's MAC address in URL-safe base64. */
  datatype LicenseInfo = LicenseInfo(version: seq<byte>, macAddr: seq<byte>)

  /** One entry of the partition table; `Failed` is an entry that could not be read. */
  datatype PartitionEntry = Partition(name: seq<char>, offset: nat, size: nat) | Failed

  /** The partition-table walk's answer: the offset of the last readable partition named "lic". */
  function LicOffset(entries: seq<PartitionEntry>): (r: Option<nat>)
    ensures r.None? <==> forall i :: 0 <= i < |entries| ==> !(entries[i].Partition? && entries[i].name == "lic")
    ensures r.Some? ==> exists i :: 0 <= i < |entries| && entries[i].Partition? && entries[i].name == "lic" &&
                                   entries[i].offset == r.value &&
                                   forall j :: i < j < |entries| ==> !(entries[j].Partition? && entries[j].name == "lic")
  {
    if entries == [] then None
    else
      var last := entries[|entries| - 1];
      if last.Partition? && last.name == "lic" then Some(last.offset)
      else
        var r := LicOffset(entries[..|entries| - 1]);
        assert forall i :: 0 <= i < |entries| - 1 ==> entries[..|entries| - 1][i] == entries[i];
        r
  }

  /** Size of the flash header in front of the token. */
  const HeaderLength: nat := 8 + 2

  /** Rust's `u32 + u32` of the offset arithmetic, which wraps in a release build. */
  function WrappingAddU32(a: nat, b: nat): (r: nat)
    ensures r < 0x1_0000_0000
    ensures a + b < 0x1_0000_0000 ==> r == a + b
  {
    (a + b) % 0x1_0000_0000
  }

  /**
   * `ReadStorage::read` of `len` bytes at `offset`, with the flash as a byte sequence:
   * reading outside it fails.
   */
  function ReadFlash(flash: seq<byte>, offset: nat, len: nat): (r: Option<seq<byte>>)
    ensures r.Some? <==> offset + len <= |flash|
    ensures r.Some? ==> |r.value| == len && forall i :: 0 <= i < len ==> r.value[i] == flash[offset + i]
  {
    if offset + len <= |flash| then Some(flash[offset..offset + len]) else None
  }

  /**
   * Checking the decoded token: decoding the public key, verifying the PASETO signature
   * and reading the licence claims are left to this function, which may panic (the key is
   * unwrapped), fail with the message `load_license` returns, or grant a licence.
   */
  datatype Verdict = KeyPanics | Rejected(message: seq<char>) | Granted(license: LicenseInfo)

  /** What `load_license` returns, or that it panics. */
  datatype LoadResult = Loaded | LoadError(message: seq<char>) | LoadPanics

  /** The token bytes following the header at `licStart`, or the message for why there are none. */
  function TokenAt(flash: seq<byte>, licStart: nat, magic: seq<byte>): (r: Result<seq<byte>, LoadResult>)
    ensures r.Err? ==> !r.error.Loaded?
    ensures r.Ok? ==> |magic| <= HeaderLength && licStart + HeaderLength <= |flash| &&
                      flash[licStart..licStart + |magic|] == magic
    ensures r.Ok? ==> |r.value| == U16FromLe(flash[licStart + 8], flash[licStart + 9])
  {
    match ReadFlash(flash, licStart, HeaderLength)
    case None => Err(LoadError("Can't read flash"))
    case Some(header) =>
      if |magic| > HeaderLength then Err(LoadPanics)
      else if header[..|magic|] != magic then Err(LoadError("No license available"))
      else
        assert header[..|magic|] == flash[licStart..licStart + |magic|];
        var tokenLength := U16FromLe(header[8], header[9]);
        match ReadFlash(flash, WrappingAddU32(licStart, HeaderLength), tokenLength)
        case None => Err(LoadError("Error reading from flash"))
        case Some(token) => Ok(token)
  }

  /**
   * `load_license` after the partition walk: the header, the token, its decoding and its
   * verification, in that order, each with its own message. `asWritten` picks the decode
   * as written, which panics on a token that is not base64, or the corrected one, which
   * returns "Decoding failure (2)" there.
   */
  function LoadFrom(asWritten: bool, licStart: Option<nat>, flash: seq<byte>, magic: seq<byte>, key: seq<byte>,
                    b: Base64, verify: seq<byte> -> Verdict): (r: (LoadResult, Option<LicenseInfo>))
    ensures r.1.Some? <==> r.0.Loaded?
  {
    if licStart.None? then (LoadError("Flash region is missing"), None)
    else match TokenAt(flash, licStart.value, magic)
      case Err(e) => (e, None)
      case Ok(token) =>
        if !Utf8.Valid(token) then (LoadError("Decoding failure (1)"), None)
        else match DecodeToken(asWritten, token, key, b)
          case Panic => (LoadPanics, None)
          case DecodeError => (LoadError("Decoding failure (2)"), None)
          case Text(pubToken) =>
            match verify(pubToken)
            case KeyPanics => (LoadPanics, None)
            case Rejected(message) => (LoadError(message), None)
            case Granted(license) => (Loaded, Some(license))
  }

  /** Without a readable "lic" partition nothing else is looked at. */
  lemma MissingRegion(asWritten: bool, entries: seq<PartitionEntry>, flash: seq<byte>, magic: seq<byte>,
                      key: seq<byte>, b: Base64, verify: seq<byte> -> Verdict)
    requires forall i :: 0 <= i < |entries| ==> !(entries[i].Partition? && entries[i].name == "lic")
    ensures LoadFrom(asWritten, LicOffset(entries), flash, magic, key, b, verify).0 == LoadError("Flash region is missing")
  {
  }

  /** A header whose first bytes are not the magic is "No license available". */
  lemma WrongMagic(asWritten: bool, licStart: nat, flash: seq<byte>, magic: seq<byte>, key: seq<byte>,
                   b: Base64, verify: seq<byte> -> Verdict)
    requires |magic| <= HeaderLength && licStart + HeaderLength <= |flash|
    requires flash[licStart..licStart + |magic|] != magic
    ensures LoadFrom(asWritten, Some(licStart), flash, magic, key, b, verify).0 == LoadError("No license available")
  {
    var header := flash[licStart..licStart + HeaderLength];
    assert header[..|magic|] == flash[licStart..licStart + |magic|];
  }

  /**
   * What a granted licence was read from: a header starting with the magic, and a token of
   * the header's little-endian length right after the header, valid UTF-8 that decodes to
   * the text that passed verification.
   */
  lemma LoadedFromToken(asWritten: bool, licStart: nat, flash: seq<byte>, magic: seq<byte>, key: seq<byte>,
                        b: Base64, verify: seq<byte> -> Verdict)
    requires LoadFrom(asWritten, Some(licStart), flash, magic, key, b, verify).0.Loaded?
    ensures licStart + HeaderLength <= |flash| && flash[licStart..licStart + |magic|] == magic
    ensures var n := U16FromLe(flash[licStart + 8], flash[licStart + 9]);
            var start := WrappingAddU32(licStart, HeaderLength);
            start + n <= |flash| && Utf8.Valid(flash[start..start + n]) &&
            var d := DecodeWithXor(flash[start..start + n], key, b);
            d.Text? && verify(d.text) == Granted(LoadFrom(asWritten, Some(licStart), flash, magic, key, b, verify).1.value)
  {
    var t := TokenAt(flash, licStart, magic);
    var start := WrappingAddU32(licStart, HeaderLength);
    var n := U16FromLe(flash[licStart + 8], flash[licStart + 9]);
    assert ReadFlash(flash, start, n) == Some(t.value);
  }

  /**
   * The two loads part only on a UTF-8 token that is not base64: as written it panics at
   * `unwrap()`, corrected it is "Decoding failure (2)".
   */
  lemma LoadPanicsOnBadToken(licStart: nat, flash: seq<byte>, magic: seq<byte>, key: seq<byte>, b: Base64,
                             verify: seq<byte> -> Verdict)
    requires TokenAt(flash, licStart, magic).Ok?
    requires var token := TokenAt(flash, licStart, magic).value;
             Utf8.Valid(token) && b.decode(token).None?
    ensures LoadFrom(true, Some(licStart), flash, magic, key, b, verify) == (LoadPanics, None)
    ensures LoadFrom(false, Some(licStart), flash, magic, key, b, verify) == (LoadError("Decoding failure (2)"), None)
  {
  }

  /** Wherever the decode as written does not panic, both loads agree. */
  lemma LoadsAgree(licStart: Option<nat>, flash: seq<byte>, magic: seq<byte>, key: seq<byte>, b: Base64,
                   verify: seq<byte> -> Verdict)
    requires !LoadFrom(true, licStart, flash, magic, key, b, verify).0.LoadPanics?
    ensures LoadFrom(true, licStart, flash, magic, key, b, verify) == LoadFrom(false, licStart, flash, magic, key, b, verify)
  {
  }

  /** A token obfuscated with the right key and verified is loaded, whatever else the flash holds. */
  lemma LoadsStoredToken(asWritten: bool, licStart: nat, flash: seq<byte>, magic: seq<byte>, key: seq<byte>,
                         b: Base64, verify: seq<byte> -> Verdict, token: seq<byte>, license: LicenseInfo)
    requires !XorPanics(token, key) && RoundTrips(b) && Utf8.Valid(token) && verify(token) == Granted(license)
    requires |magic| <= HeaderLength && licStart + HeaderLength < 0x1_0000_0000
    requires EncodeWithXor(token, key, b).Some?
    requires var stored := EncodeWithXor(token, key, b).value;
             |stored| < 0x1_0000 && Utf8.Valid(stored) &&
             licStart + HeaderLength + |stored| <= |flash| &&
             flash[licStart..licStart + |magic|] == magic &&
             U16FromLe(flash[licStart + 8], flash[licStart + 9]) == |stored| &&
             flash[licStart + HeaderLength..licStart + HeaderLength + |stored|] == stored
    ensures LoadFrom(asWritten, Some(licStart), flash, magic, key, b, verify) == (Loaded, Some(license))
  {
    var stored := EncodeWithXor(token, key, b).value;
    var header := flash[licStart..licStart + HeaderLength];
    assert header[..|magic|] == flash[licStart..licStart + |magic|];
    assert header[8] == flash[licStart + 8] && header[9] == flash[licStart + 9];
    assert TokenAt(flash, licStart, magic) == Ok(stored);
    XorRoundTrip(token, key, b);
  }

  class LicenseManager {
    var license: LicenseInfo

    /** `LicenseManager::new`: an empty licence. */
    constructor ()
      ensures license == LicenseInfo([], [])
    {
      license := LicenseInfo([], []);
    }

    /**
     * `load_license`: walks the partition table keeping the offset of the last "lic"
     * partition, then reads, decodes and verifies the token behind it; the licence is
     * replaced only when the token is granted. The decode is the corrected one: a token
     * that is not base64 is an error here where the code as written panics
     * (`LoadPanicsOnBadToken`).
     */
    method LoadLicense(entries: seq<PartitionEntry>, flash: seq<byte>, magic: seq<byte>, key: seq<byte>,
                       b: Base64, verify: seq<byte> -> Verdict) returns (r: LoadResult)
      modifies this
      ensures var l := LoadFrom(false, LicOffset(entries), flash, magic, key, b, verify);
              r == l.0 && license == (if r.Loaded? then l.1.value else old(license))
    {
      var licStart: Option<nat> := None;
      var i := 0;
      while i < |entries|
        invariant 0 <= i <= |entries|
        invariant licStart == LicOffset(entries[..i])
      {
        assert entries[..i + 1][..i] == entries[..i];
        if entries[i].Partition? && entries[i].name == "lic" {
          licStart := Some(entries[i].offset);
        }
        i := i + 1;
      }
      assert entries[..i] == entries;
      var l := LoadFrom(false, licStart, flash, magic, key, b, verify);
      r := l.0;
      if r.Loaded? {
        license := l.1.value;
      }
    }

    /**
     * `is_license_ok`: the licence's MAC address must decode, be six bytes long, and is then
     * compared with the device's.
     */
    function IsLicenseOk(b: Base64, deviceMac: seq<byte>): (r: Result<bool, seq<char>>)
      reads this
      ensures b.decode(license.macAddr).None? ==> r == Err("Decoding device information error")
      ensures b.decode(license.macAddr).Some? && |b.decode(license.macAddr).value| != 6 ==>
                r == Err("Bad device information")
      ensures b.decode(license.macAddr).Some? && |b.decode(license.macAddr).value| == 6 ==> r.Ok?
      ensures r.Ok? ==> (r.value <==> b.decode(license.macAddr) == Some(deviceMac))
    {
      match b.decode(license.macAddr)
      case None => Err("Decoding device information error")
      case Some(mac) =>
        if |mac| != 6 then Err("Bad device information") else Ok(mac == deviceMac)
    }
  }

  /** A licence issued for this device's (six-byte) MAC address is accepted, and only such a licence. */
  lemma LicenseForDevice(m: LicenseManager, b: Base64, deviceMac: seq<byte>)
    requires RoundTrips(b) && |deviceMac| == 6
    ensures m.license.macAddr == b.encode(deviceMac) ==> m.IsLicenseOk(b, deviceMac) == Ok(true)
    ensures m.IsLicenseOk(b, deviceMac) == Ok(true) ==> b.decode(m.license.macAddr) == Some(deviceMac)
  {
  }

  /** A licence for another six-byte address is refused without an error. */
  lemma LicenseForOtherDevice(m: LicenseManager, b: Base64, deviceMac: seq<byte>, other: seq<byte>)
    requires RoundTrips(b) && |deviceMac| == 6 && |other| == 6 && other != deviceMac
    requires m.license.macAddr == b.encode(other)
    ensures m.IsLicenseOk(b, deviceMac) == Ok(false)
  {
    assert b.decode(b.encode(other)) == Some(other);
  }
}
