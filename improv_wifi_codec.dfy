/**
 * The Improv Wi-Fi reader and writer as the firmware runs them: a `Parser` cursor over the
 * input and a `Writer` that appends to a growing buffer, with the per-structure `parse` and
 * `write` routines as methods. Each method is proved to agree with the wire-format
 * functions of `ImprovWifi`.
 */
module ImprovWifiCodec {
  import opened Bytes
  import Utf8
  import opened Wrappers
  import opened ImprovWifi

  /** A method's `Result` together with the parser position it left, as a `Parsed`. */
  function Reading<T>(r: Outcome<T>, pos: nat): Parsed<T>
  {
    match r
    case Ok(v) => Parsed(v, pos)
    case Err(e) => Failed(e, pos)
  }

  /** The decoding cursor: the input and the position of the next unread byte. */
  class Parser {
    const data: seq<byte>
    var pos: nat

    constructor (data: seq<byte>)
      ensures this.data == data && pos == 0
    {
      this.data := data;
      pos := 0;
    }

    method ReadU8() returns (r: Outcome<byte>)
      modifies this
      ensures Reading(r, pos) == U8At(data, old(pos))
    {
      if pos >= |data| {
        return Err(Incomplete);
      }
      r := Ok(data[pos]);
      pos := pos + 1;
    }

    method ReadMagic(magic: seq<byte>) returns (r: Outcome<()>)
      modifies this
      ensures Reading(r, pos) == MagicAt(data, old(pos), magic)
    {
      if pos + |magic| > |data| {
        return Err(Incomplete);
      }
      if data[pos..pos + |magic|] != magic {
        return Err(InvalidMagic);
      }
      pos := pos + |magic|;
      return Ok(());
    }

    method ReadVec(count: nat) returns (r: Outcome<seq<byte>>)
      modifies this
      ensures Reading(r, pos) == VecAt(data, old(pos), count)
    {
      if pos + count > |data| {
        return Err(Incomplete);
      }
      r := Ok(data[pos..pos + count]);
      pos := pos + count;
    }

    method ReadString() returns (r: Outcome<Str>)
      modifies this
      ensures Reading(r, pos) == StringAt(data, old(pos))
    {
      var len := ReadU8();
      if len.Err? {
        return Err(len.error);
      }
      var bytes := ReadVec(len.value);
      if bytes.Err? {
        return Err(bytes.error);
      }
      if !Utf8.Valid(bytes.value) {
        return Err(InvalidUtf8);
      }
      return Ok(bytes.value);
    }
  }

  /** `CurrentStateOption::parse`. */
  method ParseCurrentState(p: Parser) returns (r: Outcome<CurrentStateOption>)
    modifies p
    ensures Reading(r, p.pos) == CurrentStateAt(p.data, old(p.pos))
  {
    var v := p.ReadU8();
    if v.Err? {
      return Err(v.error);
    }
    match v.value {
      case 0x02 => r := Ok(Ready);
      case 0x03 => r := Ok(Provisioning);
      case 0x04 => r := Ok(Provisioned);
      case _ => r := Err(InvalidState(v.value));
    }
  }

  /** `ErrorStateOption::parse`. */
  method ParseErrorState(p: Parser) returns (r: Outcome<ErrorStateOption>)
    modifies p
    ensures Reading(r, p.pos) == ErrorStateAt(p.data, old(p.pos))
  {
    var v := p.ReadU8();
    if v.Err? {
      return Err(v.error);
    }
    match v.value {
      case 0x00 => r := Ok(NoError);
      case 0x01 => r := Ok(InvalidRpcPacket);
      case 0x02 => r := Ok(UnknownRpcCommand);
      case 0x03 => r := Ok(UnableToConnect);
      case 0xFF => r := Ok(UnknownError);
      case _ => r := Err(InvalidError(v.value));
    }
  }

  /** `SendWifiSettingsStruct::parse`. */
  method ParseSettings(p: Parser) returns (r: Outcome<SendWifiSettingsStruct>)
    modifies p
    ensures Reading(r, p.pos) == SettingsAt(p.data, old(p.pos))
  {
    var ssid := p.ReadString();
    if ssid.Err? {
      return Err(ssid.error);
    }
    var password := p.ReadString();
    if password.Err? {
      return Err(password.error);
    }
    return Ok(SendWifiSettingsStruct(ssid.value, password.value));
  }

  /** `RPCCommand::parse`. */
  method ParseCommand(p: Parser, command: byte) returns (r: Outcome<RpcCommand>)
    modifies p
    ensures Reading(r, p.pos) == CommandAt(p.data, old(p.pos), command)
  {
    match command {
      case 0x01 =>
        var s := ParseSettings(p);
        if s.Err? {
          return Err(s.error);
        }
        r := Ok(SendWifiSettings(s.value));
      case 0x02 => r := Ok(RequestCurrentState);
      case 0x03 => r := Ok(RequestDeviceInformation);
      case 0x04 => r := Ok(RequestScannedWifiNetworks);
      case _ => r := Err(InvalidCommand(command));
    }
  }

  /** `RPCCommandStruct::parse`. */
  method ParseRpcCommand(p: Parser) returns (r: Outcome<RpcCommandStruct>)
    modifies p
    ensures Reading(r, p.pos) == RpcCommandAt(p.data, old(p.pos))
  {
    var command := p.ReadU8();
    if command.Err? {
      return Err(command.error);
    }
    var len := p.ReadU8();
    if len.Err? {
      return Err(len.error);
    }
    var c := ParseCommand(p, command.value);
    if c.Err? {
      return Err(c.error);
    }
    return Ok(RpcCommandStruct(command.value, len.value, c.value));
  }

  /** `RPCResultStruct::parse`: strings are read until the declared length is reached. */
  method ParseRpcResult(p: Parser) returns (r: Outcome<RpcResultStruct>)
    modifies p
    ensures Reading(r, p.pos) == RpcResultAt(p.data, old(p.pos))
  {
    var command := p.ReadU8();
    if command.Err? {
      return Err(command.error);
    }
    var len := p.ReadU8();
    if len.Err? {
      return Err(len.error);
    }
    var strings: seq<Str> := [];
    var start := p.pos;
    ghost var whole := StringsAt(p.data, start, start, len.value, []);
    while p.pos - start < len.value
      invariant start <= p.pos
      invariant StringsAt(p.data, start, p.pos, len.value, strings) == whole
      decreases |p.data| - p.pos
    {
      var s := p.ReadString();
      if s.Err? {
        return Err(s.error);
      }
      strings := strings + [s.value];
    }
    return Ok(RpcResultStruct(command.value, len.value, strings));
  }

  /** `ImprovWifiPacketData::parse`. */
  method ParseData(p: Parser, dataType: byte) returns (r: Outcome<PacketData>)
    modifies p
    ensures Reading(r, p.pos) == DataAt(p.data, old(p.pos), dataType)
  {
    match dataType {
      case 0x01 =>
        var s := ParseCurrentState(p);
        if s.Err? {
          return Err(s.error);
        }
        r := Ok(CurrentState(s.value));
      case 0x02 =>
        var s := ParseErrorState(p);
        if s.Err? {
          return Err(s.error);
        }
        r := Ok(ErrorState(s.value));
      case 0x03 =>
        var s := ParseRpcCommand(p);
        if s.Err? {
          return Err(s.error);
        }
        r := Ok(Rpc(s.value));
      case 0x04 =>
        var s := ParseRpcResult(p);
        if s.Err? {
          return Err(s.error);
        }
        r := Ok(RpcResult(s.value));
      case _ => r := Err(InvalidDataType(dataType));
    }
  }

  /** `ImprovWifiPacket::from_bytes`. */
  method FromBytes(input: seq<byte>, bitOffset: nat) returns (r: Outcome<Decoded>)
    ensures r == Decode(input, bitOffset)
  {
    if bitOffset != 0 {
      return Err(Incomplete);
    }
    var p := new Parser(input);
    var magic := p.ReadMagic(Magic);
    if magic.Err? {
      return Err(magic.error);
    }
    var dataType := p.ReadU8();
    if dataType.Err? {
      return Err(dataType.error);
    }
    var dataLength := p.ReadU8();
    if dataLength.Err? {
      return Err(dataLength.error);
    }
    var data := ParseData(p, dataType.value);
    if data.Err? {
      return Err(data.error);
    }
    var checksum := p.ReadU8();
    if checksum.Err? {
      return Err(checksum.error);
    }
    var ten := p.ReadMagic([Terminator]);
    if ten.Err? {
      return Err(ten.error);
    }
    assert FrameAt(input) == Parsed(Packet(dataType.value, dataLength.value, data.value, checksum.value), p.pos);
    var checksumEnd := p.pos - 2;
    if checksum.value != Checksum(input[..checksumEnd]) {
      return Err(InvalidChecksum);
    }
    return Ok(Decoded(input[p.pos..], Packet(dataType.value, dataLength.value, data.value, checksum.value)));
  }

  /** The encoding buffer. */
  class Writer {
    var data: seq<byte>

    constructor ()
      ensures data == []
    {
      data := [];
    }

    method WriteU8(v: byte)
      modifies this
      ensures data == old(data) + [v]
    {
      data := data + [v];
    }

    method WriteMagic(magic: seq<byte>)
      modifies this
      ensures data == old(data) + magic
    {
      data := data + magic;
    }

    method WriteSlice(slice: seq<byte>)
      modifies this
      ensures data == old(data) + slice
    {
      data := data + slice;
    }

    /** A length byte (`len() as u8`, so it wraps past 255) and the string's bytes. */
    method WriteString(s: Str)
      modifies this
      ensures data == old(data) + EncodeString(s)
    {
      WriteU8(AsU8(|s|));
      WriteSlice(s);
    }
  }

  /** `CurrentStateOption::write` and `ErrorStateOption::write` together. */
  method WriteState(d: PacketData, w: Writer)
    requires d.CurrentState? || d.ErrorState?
    modifies w
    ensures w.data == old(w.data) + EncodeData(d)
  {
    match d {
      case CurrentState(s) => w.WriteU8(StateByte(s));
      case ErrorState(e) => w.WriteU8(ErrorByte(e));
    }
  }

  /** `SendWifiSettingsStruct::write`. */
  method WriteSettings(s: SendWifiSettingsStruct, w: Writer)
    modifies w
    ensures w.data == old(w.data) + EncodeSettings(s)
  {
    w.WriteString(s.ssid);
    w.WriteString(s.password);
  }

  /** `RPCCommandStruct::write`: command id and length derived from the command. */
  method WriteRpcCommand(r: RpcCommandStruct, w: Writer)
    modifies w
    ensures w.data == old(w.data) + EncodeRpcCommand(r)
  {
    w.WriteU8(CommandId(r.data));
    w.WriteU8(CommandDataLength(r.data));
    if r.data.SendWifiSettings? {
      WriteSettings(r.data.settings, w);
    }
  }

  /** `RPCResultStruct::write`: the strings length is computed, then every string follows. */
  method WriteRpcResult(r: RpcResultStruct, w: Writer)
    modifies w
    ensures w.data == old(w.data) + EncodeRpcResult(r)
  {
    w.WriteU8(r.commandResponded);
    var len := StringsDataLength(r.strings);
    w.WriteU8(len);
    ghost var head := w.data;
    assert head == old(w.data) + [r.commandResponded, len];
    WriteStrings(r.strings, w);
  }

  /** The strings of a result, each with its length prefix, in order. */
  method WriteStrings(ss: seq<Str>, w: Writer)
    modifies w
    ensures w.data == old(w.data) + EncodeStrings(ss)
  {
    var i := 0;
    while i < |ss|
      invariant i <= |ss|
      invariant w.data == old(w.data) + EncodeStrings(ss[..i])
    {
      w.WriteString(ss[i]);
      StringsPrefixStep(ss, i);
      i := i + 1;
    }
    assert ss[..i] == ss;
  }

  /** Encoding one more string of a prefix appends its encoding. */
  lemma StringsPrefixStep(ss: seq<Str>, i: nat)
    requires i < |ss|
    ensures EncodeStrings(ss[..i + 1]) == EncodeStrings(ss[..i]) + EncodeString(ss[i])
  {
    EncodeStringsSnoc(ss[..i], ss[i]);
    assert ss[..i + 1] == ss[..i] + [ss[i]];
  }

  /** `ImprovWifiPacketData::write`. */
  method WriteData(d: PacketData, w: Writer)
    modifies w
    ensures w.data == old(w.data) + EncodeData(d)
  {
    match d {
      case CurrentState(_) => WriteState(d, w);
      case ErrorState(_) => WriteState(d, w);
      case Rpc(r) => WriteRpcCommand(r, w);
      case RpcResult(r) => WriteRpcResult(r, w);
    }
  }

  /** `ImprovWifiPacket::to_bytes`, which never fails. */
  method ToBytes(packet: Packet) returns (r: Outcome<seq<byte>>)
    ensures r == Ok(Encode(packet))
  {
    var w := new Writer();
    w.WriteMagic(Magic);
    w.WriteU8(TypeId(packet.data));
    w.WriteU8(DataLength(packet.data));
    WriteData(packet.data, w);
    ghost var head := w.data;
    assert head == Magic + [TypeId(packet.data), DataLength(packet.data)] + EncodeData(packet.data);
    var checksum := Checksum(w.data);
    w.WriteU8(checksum);
    w.WriteMagic([Terminator]);
    assert w.data == Frame(TypeId(packet.data), DataLength(packet.data), EncodeData(packet.data)) by {
      assert w.data == head + [Checksum(head), Terminator];
    }
    return Ok(w.data);
  }
}
