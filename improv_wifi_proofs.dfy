/**
 * What the Improv Wi-Fi wire format guarantees: decoding an encoded frame gives the packet
 * back together with exactly the bytes after it, whatever the declared lengths say;
 * truncating an input only ever turns a result into `Incomplete`; a corrupted byte is
 * caught by the checksum; and the frames the firmware exchanges have the bytes they have.
 */
module ImprovWifiProofs {
  import opened Bytes
  import Utf8
  import opened Wrappers
  import opened ImprovWifi

  /** `enc` occurs in `data` at `pos`. */
  predicate IsAt(data: seq<byte>, pos: nat, enc: seq<byte>)
  {
    pos + |enc| <= |data| && data[pos..pos + |enc|] == enc
  }

  lemma IsAtSplit(data: seq<byte>, pos: nat, a: seq<byte>, b: seq<byte>)
    requires IsAt(data, pos, a + b)
    ensures IsAt(data, pos, a) && IsAt(data, pos + |a|, b)
  {
    assert data[pos..pos + |a|] == (a + b)[..|a|];
    assert data[pos + |a|..pos + |a| + |b|] == (a + b)[|a|..];
  }

  // ---------------------------------------------------------------------------------------
  // Reading back what was written

  lemma StringAtEncoded(data: seq<byte>, pos: nat, s: Str)
    requires |s| < 256 && IsAt(data, pos, EncodeString(s))
    ensures StringAt(data, pos) == Parsed(s, pos + 1 + |s|)
  {
    IsAtSplit(data, pos, [AsU8(|s|)], s);
  }

  lemma SettingsAtEncoded(data: seq<byte>, pos: nat, s: SendWifiSettingsStruct)
    requires |s.ssid| < 256 && |s.password| < 256 && IsAt(data, pos, EncodeSettings(s))
    ensures SettingsAt(data, pos) == Parsed(s, pos + |EncodeSettings(s)|)
  {
    var p1 := pos + |EncodeString(s.ssid)|;
    IsAtSplit(data, pos, EncodeString(s.ssid), EncodeString(s.password));
    StringAtEncoded(data, pos, s.ssid);
    StringAtEncoded(data, p1, s.password);
    assert StringAt(data, pos) == Parsed(s.ssid, p1);
    assert StringAt(data, p1) == Parsed(s.password, p1 + |EncodeString(s.password)|);
  }

  /**
   * An RPC command reads back whatever length byte precedes its data: the declared
   * length is kept but never checked.
   */
  lemma RpcCommandAtEncoded(data: seq<byte>, pos: nat, declared: byte, c: RpcCommand)
    requires c.SendWifiSettings? ==> |c.settings.ssid| < 256 && |c.settings.password| < 256
    requires IsAt(data, pos, [CommandId(c), declared] + EncodeCommand(c))
    ensures RpcCommandAt(data, pos) == Parsed(RpcCommandStruct(CommandId(c), declared, c), pos + 2 + |EncodeCommand(c)|)
  {
    IsAtSplit(data, pos, [CommandId(c), declared], EncodeCommand(c));
    if c.SendWifiSettings? {
      SettingsAtEncoded(data, pos + 2, c.settings);
    }
  }

  /** The result loop reads exactly the encoded strings when the limit is their length. */
  lemma {:induction false} StringsAtEncoded(data: seq<byte>, start: nat, pos: nat, limit: nat, acc: seq<Str>, ss: seq<Str>)
    requires start <= pos && ShortStrings(ss) && IsAt(data, pos, EncodeStrings(ss))
    requires limit == pos - start + |EncodeStrings(ss)|
    ensures StringsAt(data, start, pos, limit, acc) == Parsed(acc + ss, pos + |EncodeStrings(ss)|)
    decreases |ss|
  {
    if ss == [] {
      StringsAtLimit(data, start, pos, limit, acc);
      assert acc + ss == acc;
    } else {
      var q, tail := pos + 1 + |ss[0]|, ss[1..];
      StringsAtFirst(data, start, pos, limit, acc, ss);
      StringsAtStep(data, start, pos, limit, acc, ss[0], q);
      StringsAtEncoded(data, start, q, limit, acc + [ss[0]], tail);
      MoveFirst(acc, ss);

    }
  }

  /** The result loop stops once the limit is reached. */
  lemma StringsAtLimit(data: seq<byte>, start: nat, pos: nat, limit: nat, acc: seq<Str>)
    requires start <= pos && pos - start >= limit
    ensures StringsAt(data, start, pos, limit, acc) == Parsed(acc, pos)
  {
  }

  /** The first encoded string is read and the rest of the encoding follows it. */
  lemma StringsAtFirst(data: seq<byte>, start: nat, pos: nat, limit: nat, acc: seq<Str>, ss: seq<Str>)
    requires ss != [] && start <= pos && ShortStrings(ss) && IsAt(data, pos, EncodeStrings(ss))
    requires limit == pos - start + |EncodeStrings(ss)|
    ensures var q := pos + 1 + |ss[0]|;
      && StringAt(data, pos) == Parsed(ss[0], q)
      && ShortStrings(ss[1..]) && IsAt(data, q, EncodeStrings(ss[1..]))
      && limit == q - start + |EncodeStrings(ss[1..])|
      && pos + |EncodeStrings(ss)| == q + |EncodeStrings(ss[1..])|
  {
    var e := EncodeStrings(ss[1..]);
    assert EncodeStrings(ss) == EncodeString(ss[0]) + e;
    IsAtSplit(data, pos, EncodeString(ss[0]), e);
    StringAtEncoded(data, pos, ss[0]);
    ShortTail(ss);
  }

  lemma MoveFirst<T>(acc: seq<T>, ss: seq<T>)
    requires ss != []
    ensures acc + [ss[0]] + ss[1..] == acc + ss
  {
  }

  lemma ShortTail(ss: seq<Str>)
    requires ss != [] && ShortStrings(ss)
    ensures ShortStrings(ss[1..])
  {
    forall i | 0 <= i < |ss| - 1 ensures |ss[1..][i]| < 256 {
      assert ss[1..][i] == ss[i + 1];
    }
  }

  /** One string of the result loop, read while the limit is not reached. */
  lemma StringsAtStep(data: seq<byte>, start: nat, pos: nat, limit: nat, acc: seq<Str>, s: Str, q: nat)
    requires start <= pos && pos - start < limit && StringAt(data, pos) == Parsed(s, q)
    ensures StringsAt(data, start, pos, limit, acc) == StringsAt(data, start, q, limit, acc + [s])
  {
  }

  lemma EncodedStringsAreShort(ss: seq<Str>)
    requires |EncodeStrings(ss)| < 256
    ensures ShortStrings(ss)
  {
    forall i | 0 <= i < |ss| ensures |ss[i]| < 256 {
      EncodedStringLength(ss, i);
    }
  }

  lemma {:induction false} EncodedStringLength(ss: seq<Str>, i: nat)
    requires i < |ss|
    ensures |ss[i]| < |EncodeStrings(ss)|
  {
    if i > 0 {
      EncodedStringLength(ss[1..], i - 1);
    }
  }

  lemma RpcResultAtEncoded(data: seq<byte>, pos: nat, command: byte, ss: seq<Str>)
    requires |EncodeStrings(ss)| < 256
    requires IsAt(data, pos, [command, |EncodeStrings(ss)|] + EncodeStrings(ss))
    ensures RpcResultAt(data, pos) == Parsed(RpcResultStruct(command, |EncodeStrings(ss)|, ss), pos + 2 + |EncodeStrings(ss)|)
  {
    var n: byte := |EncodeStrings(ss)|;
    IsAtSplit(data, pos, [command, n], EncodeStrings(ss));
    assert U8At(data, pos) == Parsed(command, pos + 1);
    assert U8At(data, pos + 1) == Parsed(n, pos + 2);
    EncodedStringsAreShort(ss);
    StringsAtEncoded(data, pos + 2, pos + 2, n, [], ss);
    assert [] + ss == ss;
  }

  /** A payload reads back as its canonical form, consuming exactly its encoding. */
  lemma DataAtEncoded(data: seq<byte>, pos: nat, d: PacketData)
    requires Encodable(d) && IsAt(data, pos, EncodeData(d))
    ensures DataAt(data, pos, TypeId(d)) == Parsed(CanonicalData(d), pos + |EncodeData(d)|)
  {
    match d {
      case CurrentState(s) =>
      case ErrorState(e) =>
      case Rpc(r) =>
        RpcCommandAtEncoded(data, pos, CommandDataLength(r.data), r.data);
      case RpcResult(r) =>
        ResultLengthExact(r.strings);
        RpcResultAtEncoded(data, pos, r.commandResponded, r.strings);
    }
  }

  /** A strings length that does not wrap is the encoded length itself. */
  lemma ResultLengthExact(ss: seq<Str>)
    requires |EncodeStrings(ss)| < 256
    ensures ShortStrings(ss) && StringsDataLength(ss) == |EncodeStrings(ss)|
  {
    EncodedStringsAreShort(ss);
    var n := |EncodeStrings(ss)|;
    assert n % 256 == n;
  }

  /**
   * Reading a frame around an encodable payload: whatever the declared length and checksum
   * bytes, the fields come back as they are; the byte after the checksum must be the
   * terminator, or the read fails with `InvalidMagic`.
   */
  lemma FrameAtEncoded(dataLength: byte, d: PacketData, checksum: byte, last: byte, rest: seq<byte>)
    requires Encodable(d)
    ensures var input := Magic + [TypeId(d), dataLength] + EncodeData(d) + [checksum, last] + rest;
      var n := |EncodeData(d)|;
      FrameAt(input) ==
        if last == Terminator then Parsed(Packet(TypeId(d), dataLength, CanonicalData(d), checksum), 11 + n)
        else Failed(InvalidMagic, 10 + n)
  {
    var input := Magic + [TypeId(d), dataLength] + EncodeData(d) + [checksum, last] + rest;
    FrameLayout(TypeId(d), dataLength, EncodeData(d), checksum, last, rest);
    DataAtEncoded(input, 9, d);
    FrameAtParts(input, TypeId(d), dataLength, CanonicalData(d), |EncodeData(d)|, checksum, last);
  }

  /** Where the fields of a frame lie in its bytes. */
  lemma FrameLayout(dataType: byte, dataLength: byte, e: seq<byte>, checksum: byte, last: byte, rest: seq<byte>)
    ensures var input := Magic + [dataType, dataLength] + e + [checksum, last] + rest;
      && |input| >= 11 + |e| && input[..7] == Magic && input[7] == dataType && input[8] == dataLength
      && IsAt(input, 9, e) && input[9 + |e|] == checksum && input[10 + |e|] == last
  {
    var input := Magic + [dataType, dataLength] + e + [checksum, last] + rest;
    assert input[9..9 + |e|] == e;
  }

  /** `FrameAt` once each field has been read. */
  lemma FrameAtParts(input: seq<byte>, dataType: byte, dataLength: byte, d: PacketData, n: nat, checksum: byte, last: byte)
    requires |input| >= 11 + n && input[..7] == Magic && input[7] == dataType && input[8] == dataLength
    requires DataAt(input, 9, dataType) == Parsed(d, 9 + n)
    requires input[9 + n] == checksum && input[10 + n] == last
    ensures FrameAt(input) ==
      if last == Terminator then Parsed(Packet(dataType, dataLength, d, checksum), 11 + n)
      else Failed(InvalidMagic, 10 + n)
  {
    assert MagicAt(input, 0, Magic) == Parsed((), 7);
    assert U8At(input, 7) == Parsed(dataType, 8);
    assert U8At(input, 8) == Parsed(dataLength, 9);
    assert U8At(input, 9 + n) == Parsed(checksum, 10 + n);
    assert input[10 + n..11 + n] == [last];
  }

  /**
   * Decoding a frame around an encodable payload, followed by any bytes, gives the packet
   * with the declared type and length bytes as they were (the length is not checked) and
   * returns exactly the following bytes.
   */
  lemma DecodeFrame(dataLength: byte, d: PacketData, rest: seq<byte>)
    requires Encodable(d)
    ensures var head := Magic + [TypeId(d), dataLength] + EncodeData(d);
      Decode(Frame(TypeId(d), dataLength, EncodeData(d)) + rest, 0)
        == Ok(Decoded(rest, Packet(TypeId(d), dataLength, CanonicalData(d), Checksum(head))))
  {
    var head := Magic + [TypeId(d), dataLength] + EncodeData(d);
    var input := Frame(TypeId(d), dataLength, EncodeData(d)) + rest;
    var n := |EncodeData(d)|;
    assert input == head + [Checksum(head), Terminator] + rest;
    FrameAtEncoded(dataLength, d, Checksum(head), Terminator, rest);
    assert input[..9 + n] == head;
    assert input[11 + n..] == rest;
  }

  /** A frame whose checksum byte is not the sum of the bytes before it is rejected. */
  lemma WrongChecksumIsRejected(dataLength: byte, d: PacketData, checksum: byte, rest: seq<byte>)
    requires Encodable(d)
    requires checksum != Checksum(Magic + [TypeId(d), dataLength] + EncodeData(d))
    ensures Decode(Magic + [TypeId(d), dataLength] + EncodeData(d) + [checksum, Terminator] + rest, 0) == Err(InvalidChecksum)
  {
    var input := Magic + [TypeId(d), dataLength] + EncodeData(d) + [checksum, Terminator] + rest;
    FrameAtEncoded(dataLength, d, checksum, Terminator, rest);
    assert input[..9 + |EncodeData(d)|] == Magic + [TypeId(d), dataLength] + EncodeData(d);
  }

  /**
   * The round trip `from_bytes(to_bytes(p))`: the packet comes back in canonical form and
   * the decoder hands back exactly the input that followed the frame.
   */
  lemma RoundTrip(p: Packet, rest: seq<byte>)
    requires Encodable(p.data)
    ensures Decode(Encode(p) + rest, 0) == Ok(Decoded(rest, Canonical(p)))
  {
    DecodeFrame(DataLength(p.data), p.data, rest);
    var e := Encode(p);
    assert e[..|e| - 2] == Magic + [TypeId(p.data), DataLength(p.data)] + EncodeData(p.data);
  }

  /** Re-encoding what was decoded gives the same frame back. */
  lemma ReencodeDecoded(p: Packet)
    requires Encodable(p.data)
    ensures Encode(Canonical(p)) == Encode(p)
  {
  }

  // ---------------------------------------------------------------------------------------
  // Truncated input

  /**
   * Reading from the first `n` bytes gives what reading the whole input gives, or
   * `Incomplete`; and a read that ended within those bytes gives exactly the same.
   */
  predicate Truncated<T(==)>(full: Parsed<T>, cut: Parsed<T>, n: nat)
  {
    && (cut == full || (cut.Failed? && cut.error == Incomplete))
    && (full.Parsed? && full.pos <= n ==> cut == full)
  }

  lemma U8AtTruncated(data: seq<byte>, pos: nat, n: nat)
    requires n <= |data|
    ensures Truncated(U8At(data, pos), U8At(data[..n], pos), n)
  {
  }

  lemma MagicAtTruncated(data: seq<byte>, pos: nat, magic: seq<byte>, n: nat)
    requires n <= |data|
    ensures Truncated(MagicAt(data, pos, magic), MagicAt(data[..n], pos, magic), n)
  {
    if pos + |magic| <= n {
      assert data[..n][pos..pos + |magic|] == data[pos..pos + |magic|];
    }
  }

  lemma VecAtTruncated(data: seq<byte>, pos: nat, count: nat, n: nat)
    requires n <= |data|
    ensures Truncated(VecAt(data, pos, count), VecAt(data[..n], pos, count), n)
  {
    if pos + count <= n {
      assert data[..n][pos..pos + count] == data[pos..pos + count];
    }
  }

  lemma StringAtTruncated(data: seq<byte>, pos: nat, n: nat)
    requires n <= |data|
    ensures Truncated(StringAt(data, pos), StringAt(data[..n], pos), n)
  {
    U8AtTruncated(data, pos, n);
    if pos < |data| {
      VecAtTruncated(data, pos + 1, data[pos], n);
    }
  }

  lemma CurrentStateAtTruncated(data: seq<byte>, pos: nat, n: nat)
    requires n <= |data|
    ensures Truncated(CurrentStateAt(data, pos), CurrentStateAt(data[..n], pos), n)
  {
    U8AtTruncated(data, pos, n);
  }

  lemma ErrorStateAtTruncated(data: seq<byte>, pos: nat, n: nat)
    requires n <= |data|
    ensures Truncated(ErrorStateAt(data, pos), ErrorStateAt(data[..n], pos), n)
  {
    U8AtTruncated(data, pos, n);
  }

  lemma SettingsAtTruncated(data: seq<byte>, pos: nat, n: nat)
    requires n <= |data|
    ensures Truncated(SettingsAt(data, pos), SettingsAt(data[..n], pos), n)
  {
    StringAtTruncated(data, pos, n);
    var first := StringAt(data, pos);
    if first.Parsed? {
      StringAtTruncated(data, first.pos, n);
    }
  }

  lemma CommandAtTruncated(data: seq<byte>, pos: nat, command: byte, n: nat)
    requires n <= |data|
    ensures Truncated(CommandAt(data, pos, command), CommandAt(data[..n], pos, command), n)
  {
    if command == 0x01 {
      SettingsAtTruncated(data, pos, n);
    }
  }

  lemma RpcCommandAtTruncated(data: seq<byte>, pos: nat, n: nat)
    requires n <= |data|
    ensures Truncated(RpcCommandAt(data, pos), RpcCommandAt(data[..n], pos), n)
  {
    U8AtTruncated(data, pos, n);
    U8AtTruncated(data, pos + 1, n);
    if pos + 1 < |data| {
      CommandAtTruncated(data, pos + 2, data[pos], n);
    }
  }

  lemma {:induction false} StringsAtTruncated(data: seq<byte>, start: nat, pos: nat, limit: nat, acc: seq<Str>, n: nat)
    requires n <= |data| && start <= pos
    ensures Truncated(StringsAt(data, start, pos, limit, acc), StringsAt(data[..n], start, pos, limit, acc), n)
    decreases |data| - pos
  {
    if pos - start < limit {
      StringAtTruncated(data, pos, n);
      var s := StringAt(data, pos);
      if s.Parsed? {
        StringsAtTruncated(data, start, s.pos, limit, acc + [s.value], n);
      }
    }
  }

  lemma RpcResultAtTruncated(data: seq<byte>, pos: nat, n: nat)
    requires n <= |data|
    ensures Truncated(RpcResultAt(data, pos), RpcResultAt(data[..n], pos), n)
  {
    U8AtTruncated(data, pos, n);
    U8AtTruncated(data, pos + 1, n);
    if pos + 1 < |data| {
      StringsAtTruncated(data, pos + 2, pos + 2, data[pos + 1], [], n);
    }
  }

  lemma DataAtTruncated(data: seq<byte>, pos: nat, dataType: byte, n: nat)
    requires n <= |data|
    ensures Truncated(DataAt(data, pos, dataType), DataAt(data[..n], pos, dataType), n)
  {
    if dataType == 0x01 {
      CurrentStateAtTruncated(data, pos, n);
    } else if dataType == 0x02 {
      ErrorStateAtTruncated(data, pos, n);
    } else if dataType == 0x03 {
      RpcCommandAtTruncated(data, pos, n);
    } else if dataType == 0x04 {
      RpcResultAtTruncated(data, pos, n);
    }
  }

  lemma FrameAtTruncated(data: seq<byte>, n: nat)
    requires n <= |data|
    ensures Truncated(FrameAt(data), FrameAt(data[..n]), n)
  {
    MagicAtTruncated(data, 0, Magic, n);
    U8AtTruncated(data, 7, n);
    U8AtTruncated(data, 8, n);
    if 9 <= |data| && data[..7] == Magic {
      DataAtTruncated(data, 9, data[7], n);
      var d := DataAt(data, 9, data[7]);
      if d.Parsed? {
        U8AtTruncated(data, d.pos, n);
        MagicAtTruncated(data, d.pos + 1, [Terminator], n);
      }
    }
  }

  /**
   * Decoding the first `n` bytes of an input gives `Incomplete`, or the same error, or the
   * same packet; once the frame lies within those bytes it gives the same packet and the
   * rest of those bytes.
   */
  lemma DecodeTruncated(data: seq<byte>, bitOffset: nat, n: nat)
    requires n <= |data|
    ensures var full := Decode(data, bitOffset); var cut := Decode(data[..n], bitOffset);
      || cut == Err(Incomplete)
      || (full.Err? && cut == full)
      || (full.Ok? && cut.Ok? && cut.value.packet == full.value.packet)
    ensures var full := Decode(data, bitOffset);
      full.Ok? && |data| - |full.value.rest| <= n ==>
        Decode(data[..n], bitOffset) == Ok(Decoded(data[|data| - |full.value.rest|..n], full.value.packet))
  {
    FrameAtTruncated(data, n);
    var f := FrameAt(data);
    if f.Parsed? && f.pos <= n {
      assert data[..n][..f.pos - 2] == data[..f.pos - 2];
      assert data[..n][f.pos..] == data[f.pos..n];
    }
  }

  /** Every strict prefix of an encoded frame decodes to `Incomplete`: the reader waits. */
  lemma PrefixIsIncomplete(p: Packet, n: nat)
    requires Encodable(p.data) && n < |Encode(p)|
    ensures Decode(Encode(p)[..n], 0) == Err(Incomplete)
  {
    var e := Encode(p);
    RoundTrip(p, []);
    assert e + [] == e;
    FrameAtTruncated(e, n);
  }

  // ---------------------------------------------------------------------------------------
  // Corruption and rejection

  /**
   * Changing one byte before the checksum, in a way that leaves the frame readable to the
   * same length, is reported as `InvalidChecksum`.
   */
  lemma ChecksumDetectsCorruption(input: seq<byte>, i: nat, v: byte)
    requires Decode(input, 0).Ok?
    requires i < |input| - |Decode(input, 0).value.rest| - 2 && v != input[i]
    requires FrameAt(input[i := v]).Parsed? && FrameAt(input[i := v]).pos == FrameAt(input).pos
    ensures Decode(input[i := v], 0) == Err(InvalidChecksum)
  {
    var end := FrameAt(input).pos;
    var m := input[i := v];
    assert end == |input| - |Decode(input, 0).value.rest|;
    assert m[..end - 2] == input[..end - 2][i := v];
    assert FrameAt(m).value.checksum == FrameAt(input).value.checksum == input[end - 2];
    ChecksumChanges(input[..end - 2], i, v);
  }

  /** The Ready state frame the firmware sends first. */
  const ReadyFrame: seq<byte> := [0x49, 0x4D, 0x50, 0x52, 0x4F, 0x56, 0x01, 0x01, 0x01, 0x02, 0xE2, 0x0A]

  lemma ReadyFrameBytes()
    ensures Encode(NewCurrentState(Ready)) == ReadyFrame
    ensures Decode(ReadyFrame, 0) == Ok(Decoded([], Packet(0x01, 0x01, CurrentState(Ready), 0xE2)))
  {
    var head := ReadyFrame[..10];
    assert head == Magic + [0x01, 0x01] + [0x02];
    assert Checksum(head) == 0xE2 by {
      ChecksumIsSumMod256(head);
      PrefixSums(ReadyFrame);
    }
    assert Encode(NewCurrentState(Ready)) == head + [Checksum(head), Terminator];
    RoundTrip(NewCurrentState(Ready), []);
    assert ReadyFrame + [] == ReadyFrame;
  }

  /** The running sums of the first ten bytes of a frame that starts with the magic. */
  lemma PrefixSums(s: seq<byte>)
    requires |s| >= 10 && s[..7] == Magic
    ensures Sum(s[..7]) == 478
    ensures Sum(s[..10]) == 478 + s[7] as int + s[8] as int + s[9] as int
  {
    assert s[..0] == [];
    SumPrefixStep(s, 0);
    SumPrefixStep(s, 1);
    SumPrefixStep(s, 2);
    SumPrefixStep(s, 3);
    SumPrefixStep(s, 4);
    SumPrefixStep(s, 5);
    SumPrefixStep(s, 6);
    SumPrefixStep(s, 7);
    SumPrefixStep(s, 8);
    SumPrefixStep(s, 9);
  }

  /** A "request device information" RPC frame; its checksum byte is 0xE6. */
  const DeviceInformationRequest: Packet := Packet(0, 0, Rpc(RpcCommandStruct(0, 0, RequestDeviceInformation)), 0)

  lemma DeviceInformationRequestBytes()
    ensures Encode(DeviceInformationRequest) == Magic + [0x03, 0x02, 0x03, 0x00, 0xE6, 0x0A]
  {
    var e := Encode(DeviceInformationRequest);
    var head := e[..|e| - 2];
    assert head == Magic + [0x03, 0x02, 0x03, 0x00];
    ChecksumIsSumMod256(head);
    PrefixSums(head);
    SumPrefixStep(head, 10);
    assert head[..11] == head;
  }

  /** A frame whose terminator is not 0x0A is rejected as a bad magic. */
  lemma BadTerminatorIsInvalidMagic(p: Packet, b: byte)
    requires Encodable(p.data) && b != Terminator
    ensures var e := Encode(p); Decode(e[|e| - 1 := b], 0) == Err(InvalidMagic)
  {
    var e := Encode(p);
    var head := Magic + [TypeId(p.data), DataLength(p.data)] + EncodeData(p.data);
    assert e[|e| - 1 := b] == head + [Checksum(head), b] + [];
    FrameAtEncoded(DataLength(p.data), p.data, Checksum(head), b, []);
  }

  /**
   * The header checks of `from_bytes`, in order: a bit offset, too few bytes for the magic,
   * a wrong magic or version, and an unknown type byte.
   */
  lemma HeaderErrors(input: seq<byte>, bitOffset: nat)
    ensures bitOffset != 0 ==> Decode(input, bitOffset) == Err(Incomplete)
    ensures bitOffset == 0 && |input| < 7 ==> Decode(input, 0) == Err(Incomplete)
    ensures bitOffset == 0 && |input| >= 7 && input[..7] != Magic ==> Decode(input, 0) == Err(InvalidMagic)
    ensures bitOffset == 0 && |input| >= 9 && input[..7] == Magic && !(1 <= input[7] <= 4) ==>
              Decode(input, 0) == Err(InvalidDataType(input[7]))
  {
  }

  /** Payload bytes outside the enumerations are rejected with the offending byte. */
  lemma PayloadErrors(dataLength: byte, v: byte, declared: byte, rest: seq<byte>)
    ensures !(2 <= v <= 4) ==>
              Decode(Magic + [0x01, dataLength, v] + rest, 0) == Err(InvalidState(v))
    ensures !(v <= 3 || v == 0xFF) ==>
              Decode(Magic + [0x02, dataLength, v] + rest, 0) == Err(InvalidError(v))
    ensures !(1 <= v <= 4) ==>
              Decode(Magic + [0x03, dataLength, v, declared] + rest, 0) == Err(InvalidCommand(v))
  {
    var a := Magic + [0x01, dataLength, v] + rest;
    var b := Magic + [0x02, dataLength, v] + rest;
    var c := Magic + [0x03, dataLength, v, declared] + rest;
    HeaderLayout(0x01, dataLength, [v] + rest);
    HeaderLayout(0x02, dataLength, [v] + rest);
    HeaderLayout(0x03, dataLength, [v, declared] + rest);
    assert a == Magic + [0x01, dataLength] + ([v] + rest);
    assert b == Magic + [0x02, dataLength] + ([v] + rest);
    assert c == Magic + [0x03, dataLength] + ([v, declared] + rest);
    if !(2 <= v <= 4) {
      DataErrorIsDecodeError(a, 0x01);
    }
    if !(v <= 3 || v == 0xFF) {
      DataErrorIsDecodeError(b, 0x02);
    }
    if !(1 <= v <= 4) {
      DataErrorIsDecodeError(c, 0x03);
    }
  }

  /** Where the header fields of a frame lie and where its payload starts. */
  lemma HeaderLayout(dataType: byte, dataLength: byte, tail: seq<byte>)
    ensures var input := Magic + [dataType, dataLength] + tail;
      |input| == 9 + |tail| && input[..7] == Magic && input[7] == dataType && input[8] == dataLength &&
      input[9..] == tail
  {
  }

  /** A payload that fails to parse fails the whole decode with the same error. */
  lemma DataErrorIsDecodeError(input: seq<byte>, dataType: byte)
    requires |input| >= 9 && input[..7] == Magic && input[7] == dataType
    requires DataAt(input, 9, dataType).Failed?
    ensures Decode(input, 0) == Err(DataAt(input, 9, dataType).error)
  {
    assert MagicAt(input, 0, Magic) == Parsed((), 7);
    assert U8At(input, 7) == Parsed(dataType, 8);
    assert U8At(input, 8) == Parsed(input[8], 9);
  }

  /** A Wi-Fi settings string that is not UTF-8 is rejected. */
  lemma SettingsUtf8Error(dataLength: byte, declared: byte, bytes: seq<byte>, rest: seq<byte>)
    requires |bytes| < 256 && !Utf8.Valid(bytes)
    ensures Decode(Magic + [0x03, dataLength, 0x01, declared, |bytes| as byte] + bytes + rest, 0) == Err(InvalidUtf8)
  {
    var input := Magic + [0x03, dataLength, 0x01, declared, |bytes| as byte] + bytes + rest;
    SettingsLayout(dataLength, declared, bytes, rest);
    SsidFails(input, bytes);
    DataErrorIsDecodeError(input, 0x03);
  }

  lemma SettingsLayout(dataLength: byte, declared: byte, bytes: seq<byte>, rest: seq<byte>)
    requires |bytes| < 256
    ensures var input := Magic + [0x03, dataLength, 0x01, declared, |bytes| as byte] + bytes + rest;
      && |input| >= 12 + |bytes| && input[..7] == Magic && input[7] == 0x03 && input[9] == 0x01
      && input[11] == |bytes| && input[12..12 + |bytes|] == bytes
  {
    var input := Magic + [0x03, dataLength, 0x01, declared, |bytes| as byte] + bytes + rest;
    assert input[..7] == Magic;
    assert input[12..12 + |bytes|] == bytes;
  }

  /** A send-settings command whose SSID is not UTF-8 fails to parse. */
  lemma SsidFails(input: seq<byte>, bytes: seq<byte>)
    requires |input| >= 12 + |bytes| && input[9] == 0x01 && input[11] == |bytes|
    requires input[12..12 + |bytes|] == bytes && !Utf8.Valid(bytes)
    ensures DataAt(input, 9, 0x03).Failed? && DataAt(input, 9, 0x03).error == InvalidUtf8
  {
    assert StringAt(input, 11) == Failed(InvalidUtf8, 12 + |bytes|);
    assert RpcCommandAt(input, 9).Failed? && RpcCommandAt(input, 9).error == InvalidUtf8;
  }

  /**
   * The result loop only stops once at least the declared length is consumed, so a string
   * running past it is read whole: declared length 1, one three-byte string.
   */
  lemma ResultStringsOvershoot()
    ensures var abc: seq<byte> := [0x61, 0x62, 0x63];
      Utf8.Valid(abc) && RpcResultAt([0x04, 0x01, 0x03] + abc, 0) == Parsed(RpcResultStruct(0x04, 0x01, [abc]), 6)
  {
    var abc: seq<byte> := [0x61, 0x62, 0x63];
    Utf8.AsciiValid(abc);
    var data := [0x04, 0x01, 0x03] + abc;
    assert data[3..6] == abc;
    assert StringAt(data, 2) == Parsed(abc, 6);
    var none: seq<Str> := [];
    assert none + [abc] == [abc];
    assert StringsAt(data, 2, 6, 1, [abc]) == Parsed([abc], 6);
    assert StringsAt(data, 2, 2, 1, []) == Parsed([abc], 6);
  }

  /**
   * What a peer decodes from a result frame the firmware builds: the responded command, the
   * strings in order, and their total encoded length as the strings length.
   */
  lemma ResultFrameDecodes(r: RpcResultStruct)
    requires |EncodeStrings(r.strings)| < 256
    ensures var d := Decode(Encode(NewRpcResult(r)), 0);
      && d.Ok? && d.value.rest == []
      && d.value.packet.dataType == 0x04 && d.value.packet.dataLength == (2 + |EncodeStrings(r.strings)|) % 256
      && d.value.packet.data == RpcResult(RpcResultStruct(r.commandResponded, |EncodeStrings(r.strings)|, r.strings))
  {
    var p := NewRpcResult(r);
    EncodedStringsAreShort(r.strings);
    assert StringsDataLength(r.strings) == |EncodeStrings(r.strings)|;
    assert DataLength(p.data) == (2 + |EncodeStrings(r.strings)|) % 256;
    assert Canonical(p).data == RpcResult(RpcResultStruct(r.commandResponded, |EncodeStrings(r.strings)|, r.strings));
    RoundTrip(p, []);
    assert Encode(p) + [] == Encode(p);
  }

  /**
   * Each response builder answers the command whose id it carries, with the strings of its
   * answer in order: the four device strings, a network's name, signal and "YES" or "NO", none
   * at the end of a scan, the redirect URL after the settings.
   */
  lemma ResponsesAnswerTheirCommands(s: SendWifiSettingsStruct, a: Str, b: Str, c: Str, d: Str, auth: bool)
    ensures DeviceInformationResult(a, b, c, d).commandResponded == CommandId(RequestDeviceInformation)
    ensures DeviceInformationResult(a, b, c, d).strings == [a, b, c, d]
    ensures ScannedNetworkResult(a, b, auth).commandResponded == CommandId(RequestScannedWifiNetworks)
    ensures ScannedNetworkResult(a, b, auth).strings == [a, b, YesOrNo(auth)]
    ensures ScannedNetworksEndResult().commandResponded == CommandId(RequestScannedWifiNetworks)
    ensures ScannedNetworksEndResult().strings == []
    ensures SendWifiSettingsResult(a).commandResponded == CommandId(SendWifiSettings(s))
    ensures SendWifiSettingsResult(a).strings == [a]
  {
  }
}
