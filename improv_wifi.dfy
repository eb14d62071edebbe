/**
 * The Improv Wi-Fi serial protocol as this firmware speaks it: the packet model and the wire
 * format, both directions, written as functions over byte sequences.
 *
 * A frame is "IMPROV", version 0x01, a type byte, a length byte, the payload, a checksum and
 * the terminator 0x0A. The checksum is the wrapping 8-bit sum of every byte before it. The
 * decoder is a cursor over the input: each `...At` function reads at a position and returns
 * the value and the position after it, or the error and the position it stopped at.
 */
module ImprovWifi {
  import opened Bytes
  import Utf8
  import opened Wrappers

  /** A Rust `String`: a byte sequence that is well-formed UTF-8. */
  type Str = s: seq<byte> | Utf8.Valid(s)

  datatype ParseError =
    | Incomplete
    | InvalidMagic
    | InvalidChecksum
    | InvalidUtf8
    | InvalidDataType(dataType: byte)
    | InvalidCommand(command: byte)
    | InvalidState(state: byte)
    | InvalidError(code: byte)

  datatype CurrentStateOption = Ready | Provisioning | Provisioned

  datatype ErrorStateOption = NoError | InvalidRpcPacket | UnknownRpcCommand | UnableToConnect | UnknownError

  datatype SendWifiSettingsStruct = SendWifiSettingsStruct(ssid: Str, password: Str)

  datatype RpcCommand =
    | SendWifiSettings(settings: SendWifiSettingsStruct)
    | RequestCurrentState
    | RequestDeviceInformation
    | RequestScannedWifiNetworks

  /** The `command` and `dataLength` bytes are what was read; the writer derives its own. */
  datatype RpcCommandStruct = RpcCommandStruct(command: byte, dataLength: byte, data: RpcCommand)

  /** `stringsDataLength` is what was read; the writer derives its own. */
  datatype RpcResultStruct = RpcResultStruct(commandResponded: byte, stringsDataLength: byte, strings: seq<Str>)

  datatype PacketData =
    | CurrentState(state: CurrentStateOption)
    | ErrorState(error: ErrorStateOption)
    | Rpc(rpc: RpcCommandStruct)
    | RpcResult(result: RpcResultStruct)

  /**
   * A packet. `dataType`, `dataLength` and `checksum` hold what the decoder read (the
   * builders put zeros there); the encoder ignores them and derives its own from `data`.
   * The terminator ("always ten") carries no information and is not a field here.
   */
  datatype Packet = Packet(dataType: byte, dataLength: byte, data: PacketData, checksum: byte)

  /** "IMPROV" followed by the protocol version 0x01. */
  const Magic: seq<byte> := [0x49, 0x4D, 0x50, 0x52, 0x4F, 0x56, 0x01]
  const Terminator: byte := 0x0A

  // ---------------------------------------------------------------------------------------
  // Identifiers and byte values

  function StateByte(s: CurrentStateOption): byte
  {
    match s
    case Ready => 0x02
    case Provisioning => 0x03
    case Provisioned => 0x04
  }

  function ErrorByte(e: ErrorStateOption): byte
  {
    match e
    case NoError => 0x00
    case InvalidRpcPacket => 0x01
    case UnknownRpcCommand => 0x02
    case UnableToConnect => 0x03
    case UnknownError => 0xFF
  }

  function CommandId(c: RpcCommand): byte
  {
    match c
    case SendWifiSettings(_) => 0x01
    case RequestCurrentState => 0x02
    case RequestDeviceInformation => 0x03
    case RequestScannedWifiNetworks => 0x04
  }

  function TypeId(d: PacketData): byte
  {
    match d
    case CurrentState(_) => 0x01
    case ErrorState(_) => 0x02
    case Rpc(_) => 0x03
    case RpcResult(_) => 0x04
  }

  // ---------------------------------------------------------------------------------------
  // Encoding

  /** A length-prefixed string; the prefix is `s.len() as u8`. */
  function EncodeString(s: Str): seq<byte>
  {
    [AsU8(|s|)] + s
  }

  function EncodeStrings(ss: seq<Str>): (r: seq<byte>)
    ensures ss != [] ==> |r| >= |ss|
  {
    if ss == [] then [] else EncodeString(ss[0]) + EncodeStrings(ss[1..])
  }

  function EncodeSettings(s: SendWifiSettingsStruct): seq<byte>
  {
    EncodeString(s.ssid) + EncodeString(s.password)
  }

  function EncodeCommand(c: RpcCommand): seq<byte>
  {
    match c
    case SendWifiSettings(s) => EncodeSettings(s)
    case _ => []
  }

  /** Whether every string length fits its one-byte prefix. */
  predicate ShortStrings(ss: seq<Str>)
  {
    forall i :: 0 <= i < |ss| ==> |ss[i]| < 256
  }

  /**
   * `SendWifiSettingsStruct::get_data_length`: `2 + ssid.len() as u8 + password.len() as u8`
   * in wrapping u8 arithmetic; the length of the settings' encoding, modulo 256.
   */
  function SettingsLength(s: SendWifiSettingsStruct): (r: byte)
    ensures |s.ssid| < 256 && |s.password| < 256 ==> r == |EncodeSettings(s)| % 256
  {
    WrappingAdd(WrappingAdd(2, AsU8(|s.ssid|)), AsU8(|s.password|))
  }

  /** `RPCCommand::get_data_length`. */
  function CommandDataLength(c: RpcCommand): (r: byte)
    ensures (c.SendWifiSettings? ==> |c.settings.ssid| < 256 && |c.settings.password| < 256) ==>
              r == |EncodeCommand(c)| % 256
  {
    match c
    case SendWifiSettings(s) => SettingsLength(s)
    case _ => 0
  }

  /** The bytes `RPCCommandStruct::write` emits: derived command id and length, then data. */
  function EncodeRpcCommand(r: RpcCommandStruct): seq<byte>
  {
    [CommandId(r.data), CommandDataLength(r.data)] + EncodeCommand(r.data)
  }

  /**
   * `RPCResultStruct::get_strings_data_length`: the fold `acc + 1 + x.len() as u8`, wrapping;
   * with every string short, it is the encoded length of the strings modulo 256.
   */
  function StringsDataLength(ss: seq<Str>): (r: byte)
    ensures ShortStrings(ss) ==> r == |EncodeStrings(ss)| % 256
  {
    if ss == [] then 0
    else
      var init, last := ss[..|ss| - 1], ss[|ss| - 1];
      var r := WrappingAdd(WrappingAdd(StringsDataLength(init), 1), AsU8(|last|));
      assert ShortStrings(ss) ==> r == |EncodeStrings(ss)| % 256 by {
        if ShortStrings(ss) {
          assert ShortStrings(init);
          EncodeStringsSnoc(init, last);
          assert init + [last] == ss;
          LengthStep(StringsDataLength(init), |EncodeStrings(init)|, |last|);
        }
      }
      r
  }

  /** Adding one prefix byte and `len` string bytes to a length known modulo 256. */
  lemma LengthStep(acc: byte, n: nat, len: nat)
    requires acc == n % 256 && len < 256
    ensures WrappingAdd(WrappingAdd(acc, 1), AsU8(len)) == (n + (1 + len)) % 256
  {
  }

  /** Encoding one more string appends its encoding. */
  lemma {:induction false} EncodeStringsSnoc(ss: seq<Str>, s: Str)
    ensures EncodeStrings(ss + [s]) == EncodeStrings(ss) + EncodeString(s)
  {
    if ss != [] {
      assert (ss + [s])[1..] == ss[1..] + [s];
      EncodeStringsSnoc(ss[1..], s);
    }
  }

  /** The bytes `RPCResultStruct::write` emits: stored command id, derived length, strings. */
  function EncodeRpcResult(r: RpcResultStruct): seq<byte>
  {
    [r.commandResponded, StringsDataLength(r.strings)] + EncodeStrings(r.strings)
  }

  /** Whether nothing in the payload's length bytes wraps around. */
  predicate ShortPayload(d: PacketData)
  {
    match d
    case Rpc(r) => r.data.SendWifiSettings? ==> |r.data.settings.ssid| < 256 && |r.data.settings.password| < 256
    case RpcResult(r) => ShortStrings(r.strings)
    case _ => true
  }

  function EncodeData(d: PacketData): seq<byte>
  {
    match d
    case CurrentState(s) => [StateByte(s)]
    case ErrorState(e) => [ErrorByte(e)]
    case Rpc(r) => EncodeRpcCommand(r)
    case RpcResult(r) => EncodeRpcResult(r)
  }

  /**
   * `ImprovWifiPacketData::get_data_length`; whenever no string length wraps, it is the
   * payload's real length modulo 256.
   */
  function DataLength(d: PacketData): (r: byte)
    ensures ShortPayload(d) ==> r == |EncodeData(d)| % 256
  {
    match d
    case CurrentState(_) => 1
    case ErrorState(_) => 1
    case Rpc(r) =>
      var c := CommandDataLength(r.data);
      assert ShortPayload(d) ==> WrappingAdd(2, c) == |EncodeData(d)| % 256 by {
        if ShortPayload(d) {
          assert |EncodeData(d)| == 2 + |EncodeCommand(r.data)|;
          AddMod(2, |EncodeCommand(r.data)|);
        }
      }
      WrappingAdd(2, c)
    case RpcResult(r) =>
      var c := StringsDataLength(r.strings);
      assert ShortPayload(d) ==> WrappingAdd(2, c) == |EncodeData(d)| % 256 by {
        if ShortPayload(d) {
          assert |EncodeData(d)| == 2 + |EncodeStrings(r.strings)|;
          AddMod(2, |EncodeStrings(r.strings)|);
        }
      }
      WrappingAdd(2, c)
  }

  /** A frame around a payload, with the given type and length bytes. */
  function Frame(dataType: byte, dataLength: byte, payload: seq<byte>): seq<byte>
  {
    var head := Magic + [dataType, dataLength] + payload;
    head + [Checksum(head), Terminator]
  }

  /**
   * `ImprovWifiPacket::to_bytes`: the frame is magic and version, type, length, payload,
   * checksum and terminator; type and length are derived from the payload (the stored fields
   * play no part), and the checksum is the wrapping sum of every byte before it.
   */
  function Encode(p: Packet): (r: seq<byte>)
    ensures |r| == 11 + |EncodeData(p.data)| && r[..7] == Magic
    ensures r[7] == TypeId(p.data) && r[8] == DataLength(p.data)
    ensures r[9..|r| - 2] == EncodeData(p.data)
    ensures r[|r| - 2] == Checksum(r[..|r| - 2]) && r[|r| - 1] == 0x0A
    ensures ShortPayload(p.data) ==> r[8] == (|r| - 11) % 256
  {
    var r := Frame(TypeId(p.data), DataLength(p.data), EncodeData(p.data));
    assert r[..|r| - 2] == Magic + [TypeId(p.data), DataLength(p.data)] + EncodeData(p.data);
    r
  }

  // ---------------------------------------------------------------------------------------
  // Decoding

  /** What a read at a position produces: a value and the next position, or an error. */
  datatype Parsed<+T> = Parsed(value: T, pos: nat) | Failed(error: ParseError, pos: nat)

  /** `Parser::read_u8`. */
  function U8At(data: seq<byte>, pos: nat): (r: Parsed<byte>)
    ensures r.Parsed? <==> pos < |data|
    ensures r.Parsed? ==> r.value == data[pos] && r.pos == pos + 1
  {
    if pos >= |data| then Failed(Incomplete, pos) else Parsed(data[pos], pos + 1)
  }

  /** `Parser::read_magic`: the bytes must be there, then they must equal `magic`. */
  function MagicAt(data: seq<byte>, pos: nat, magic: seq<byte>): (r: Parsed<()>)
    ensures r.Parsed? <==> pos + |magic| <= |data| && data[pos..pos + |magic|] == magic
    ensures r.Parsed? ==> r.pos == pos + |magic|
    ensures r.Failed? ==> (r.error == Incomplete <==> pos + |magic| > |data|)
    ensures r.Failed? ==> r.error in {Incomplete, InvalidMagic}
  {
    if pos + |magic| > |data| then Failed(Incomplete, pos)
    else if data[pos..pos + |magic|] != magic then Failed(InvalidMagic, pos)
    else Parsed((), pos + |magic|)
  }

  /** `Parser::read_vec`. */
  function VecAt(data: seq<byte>, pos: nat, count: nat): (r: Parsed<seq<byte>>)
    ensures r.Parsed? <==> pos + count <= |data|
    ensures r.Parsed? ==> r.value == data[pos..pos + count] && r.pos == pos + count
  {
    if pos + count > |data| then Failed(Incomplete, pos)
    else Parsed(data[pos..pos + count], pos + count)
  }

  /** `Parser::read_string`: a length byte, that many bytes, which must be UTF-8. */
  function StringAt(data: seq<byte>, pos: nat): (r: Parsed<Str>)
    ensures r.Parsed? ==> pos < r.pos <= |data| && r.pos == pos + 1 + |r.value|
  {
    match U8At(data, pos)
    case Failed(e, q) => Failed(e, q)
    case Parsed(n, p1) =>
      match VecAt(data, p1, n)
      case Failed(e, q) => Failed(e, q)
      case Parsed(bytes, p2) =>
        if Utf8.Valid(bytes) then Parsed(bytes, p2) else Failed(InvalidUtf8, p2)
  }

  function CurrentStateAt(data: seq<byte>, pos: nat): (r: Parsed<CurrentStateOption>)
    ensures r.Parsed? ==> r.pos == pos + 1 <= |data| && StateByte(r.value) == data[pos]
  {
    match U8At(data, pos)
    case Failed(e, q) => Failed(e, q)
    case Parsed(v, p1) =>
      if v == 0x02 then Parsed(Ready, p1)
      else if v == 0x03 then Parsed(Provisioning, p1)
      else if v == 0x04 then Parsed(Provisioned, p1)
      else Failed(InvalidState(v), p1)
  }

  function ErrorStateAt(data: seq<byte>, pos: nat): (r: Parsed<ErrorStateOption>)
    ensures r.Parsed? ==> r.pos == pos + 1 <= |data| && ErrorByte(r.value) == data[pos]
  {
    match U8At(data, pos)
    case Failed(e, q) => Failed(e, q)
    case Parsed(v, p1) =>
      if v == 0x00 then Parsed(NoError, p1)
      else if v == 0x01 then Parsed(InvalidRpcPacket, p1)
      else if v == 0x02 then Parsed(UnknownRpcCommand, p1)
      else if v == 0x03 then Parsed(UnableToConnect, p1)
      else if v == 0xFF then Parsed(UnknownError, p1)
      else Failed(InvalidError(v), p1)
  }

  function SettingsAt(data: seq<byte>, pos: nat): (r: Parsed<SendWifiSettingsStruct>)
    ensures r.Parsed? ==> pos < r.pos <= |data|
  {
    match StringAt(data, pos)
    case Failed(e, q) => Failed(e, q)
    case Parsed(ssid, p1) =>
      match StringAt(data, p1)
      case Failed(e, q) => Failed(e, q)
      case Parsed(password, p2) => Parsed(SendWifiSettingsStruct(ssid, password), p2)
  }

  /** `RPCCommand::parse`: only Send-Wi-Fi-settings carries data. */
  function CommandAt(data: seq<byte>, pos: nat, command: byte): (r: Parsed<RpcCommand>)
    ensures r.Parsed? ==> pos <= r.pos <= |data| + (if pos > |data| then pos - |data| else 0)
    ensures r.Parsed? ==> CommandId(r.value) == command
  {
    if command == 0x01 then
      match SettingsAt(data, pos)
      case Failed(e, q) => Failed(e, q)
      case Parsed(s, p1) => Parsed(SendWifiSettings(s), p1)
    else if command == 0x02 then Parsed(RequestCurrentState, pos)
    else if command == 0x03 then Parsed(RequestDeviceInformation, pos)
    else if command == 0x04 then Parsed(RequestScannedWifiNetworks, pos)
    else Failed(InvalidCommand(command), pos)
  }

  /** `RPCCommandStruct::parse`: command, declared length (not checked), command data. */
  function RpcCommandAt(data: seq<byte>, pos: nat): (r: Parsed<RpcCommandStruct>)
    ensures r.Parsed? ==> pos + 2 <= r.pos <= |data|
  {
    match U8At(data, pos)
    case Failed(e, q) => Failed(e, q)
    case Parsed(command, p1) =>
      match U8At(data, p1)
      case Failed(e, q) => Failed(e, q)
      case Parsed(len, p2) =>
        match CommandAt(data, p2, command)
        case Failed(e, q) => Failed(e, q)
        case Parsed(c, p3) => Parsed(RpcCommandStruct(command, len, c), p3)
  }

  /**
   * The loop of `RPCResultStruct::parse`: while fewer than `limit` bytes have been consumed
   * since `start`, read another string; `acc` holds the strings read so far.
   */
  function StringsAt(data: seq<byte>, start: nat, pos: nat, limit: nat, acc: seq<Str>): (r: Parsed<seq<Str>>)
    requires start <= pos
    ensures r.Parsed? ==> pos <= r.pos && r.pos - start >= limit
    ensures r.Parsed? && r.pos > pos ==> r.pos <= |data|
    decreases |data| - pos
  {
    if pos - start < limit then
      match StringAt(data, pos)
      case Failed(e, q) => Failed(e, q)
      case Parsed(s, q) => StringsAt(data, start, q, limit, acc + [s])
    else Parsed(acc, pos)
  }

  /** `RPCResultStruct::parse`. */
  function RpcResultAt(data: seq<byte>, pos: nat): (r: Parsed<RpcResultStruct>)
    ensures r.Parsed? ==> pos + 2 <= r.pos <= |data|
  {
    match U8At(data, pos)
    case Failed(e, q) => Failed(e, q)
    case Parsed(command, p1) =>
      match U8At(data, p1)
      case Failed(e, q) => Failed(e, q)
      case Parsed(len, p2) =>
        match StringsAt(data, p2, p2, len, [])
        case Failed(e, q) => Failed(e, q)
        case Parsed(ss, p3) => Parsed(RpcResultStruct(command, len, ss), p3)
  }

  /** `ImprovWifiPacketData::parse`: the payload variant the type byte selects. */
  function DataAt(data: seq<byte>, pos: nat, dataType: byte): (r: Parsed<PacketData>)
    ensures r.Parsed? ==> pos < r.pos <= |data| && TypeId(r.value) == dataType
  {
    if dataType == 0x01 then
      match CurrentStateAt(data, pos)
      case Failed(e, q) => Failed(e, q)
      case Parsed(s, q) => Parsed(CurrentState(s), q)
    else if dataType == 0x02 then
      match ErrorStateAt(data, pos)
      case Failed(e, q) => Failed(e, q)
      case Parsed(s, q) => Parsed(ErrorState(s), q)
    else if dataType == 0x03 then
      match RpcCommandAt(data, pos)
      case Failed(e, q) => Failed(e, q)
      case Parsed(s, q) => Parsed(Rpc(s), q)
    else if dataType == 0x04 then
      match RpcResultAt(data, pos)
      case Failed(e, q) => Failed(e, q)
      case Parsed(s, q) => Parsed(RpcResult(s), q)
    else Failed(InvalidDataType(dataType), pos)
  }

  /**
   * Everything `from_bytes` reads, in order, before it compares checksums: magic and version,
   * type, length, payload, checksum byte and terminator (read with `read_magic`, so a wrong
   * terminator is `InvalidMagic`). On success the position is just past the terminator.
   */
  function FrameAt(input: seq<byte>): (r: Parsed<Packet>)
    ensures r.Parsed? ==> 12 <= r.pos <= |input| && input[r.pos - 1] == Terminator
    ensures r.Parsed? ==> r.value.checksum == input[r.pos - 2]
    ensures r.Parsed? ==> input[..7] == Magic && r.value.dataType == input[7] && r.value.dataLength == input[8]
  {
    match MagicAt(input, 0, Magic)
    case Failed(e, q) => Failed(e, q)
    case Parsed(_, p1) =>
      match U8At(input, p1)
      case Failed(e, q) => Failed(e, q)
      case Parsed(dataType, p2) =>
        match U8At(input, p2)
        case Failed(e, q) => Failed(e, q)
        case Parsed(dataLength, p3) =>
          match DataAt(input, p3, dataType)
          case Failed(e, q) => Failed(e, q)
          case Parsed(d, p4) =>
            match U8At(input, p4)
            case Failed(e, q) => Failed(e, q)
            case Parsed(checksum, p5) =>
              match MagicAt(input, p5, [Terminator])
              case Failed(e, q) => Failed(e, q)
              case Parsed(_, p6) => Parsed(Packet(dataType, dataLength, d, checksum), p6)
  }

  /** A decoded packet and the input left after it. */
  datatype Decoded = Decoded(rest: seq<byte>, packet: Packet)

  /** Rust's `Result<T, ParseError>`. */
  type Outcome<T> = Result<T, ParseError>

  /**
   * `ImprovWifiPacket::from_bytes((input, bit_offset))`: a non-zero bit offset is
   * `Incomplete`; otherwise the frame is read and the checksum byte must equal the wrapping
   * sum of every byte before it.
   */
  function Decode(input: seq<byte>, bitOffset: nat): (r: Outcome<Decoded>)
    ensures r.Ok? ==> |r.value.rest| + 12 <= |input| && input[|input| - |r.value.rest|..] == r.value.rest
    ensures r.Ok? ==> r.value.packet.checksum == Checksum(input[..|input| - |r.value.rest| - 2])
  {
    if bitOffset != 0 then Err(Incomplete)
    else
      match FrameAt(input)
      case Failed(e, _) => Err(e)
      case Parsed(packet, end) =>
        if packet.checksum != Checksum(input[..end - 2]) then Err(InvalidChecksum)
        else Ok(Decoded(input[end..], packet))
  }

  // ---------------------------------------------------------------------------------------
  // Builders

  function NewCurrentState(s: CurrentStateOption): Packet
  {
    Packet(0, 0, CurrentState(s), 0)
  }

  function NewErrorState(e: ErrorStateOption): Packet
  {
    Packet(0, 0, ErrorState(e), 0)
  }

  function NewRpcResult(r: RpcResultStruct): Packet
  {
    Packet(0, 0, RpcResult(r), 0)
  }

  function NewRpcCommand(): Packet
  {
    Packet(0, 0, Rpc(RpcCommandStruct(0, 0, RequestCurrentState)), 0)
  }

  function YesOrNo(authRequired: bool): Str
  {
    var r: seq<byte> := if authRequired then [0x59, 0x45, 0x53] else [0x4E, 0x4F];
    Utf8.AsciiValid(r);
    r
  }

  function DeviceInformationResult(firmwareName: Str, firmwareVersion: Str, chip: Str, deviceName: Str): RpcResultStruct
  {
    RpcResultStruct(0x03, 0x00, [firmwareName, firmwareVersion, chip, deviceName])
  }

  function ScannedNetworkResult(ssid: Str, rssi: Str, authRequired: bool): RpcResultStruct
  {
    RpcResultStruct(0x04, 0x00, [ssid, rssi, YesOrNo(authRequired)])
  }

  function ScannedNetworksEndResult(): RpcResultStruct
  {
    RpcResultStruct(0x04, 0x00, [])
  }

  function SendWifiSettingsResult(redirectUrl: Str): RpcResultStruct
  {
    RpcResultStruct(0x01, 0x00, [redirectUrl])
  }

  /**
   * Whether a payload can make the round trip: every string length fits its prefix byte,
   * and an RPC result's strings fit the one-byte strings length the decoder loops on.
   */
  predicate Encodable(d: PacketData)
  {
    ShortPayload(d) && (d.RpcResult? ==> |EncodeStrings(d.result.strings)| < 256)
  }

  /** The payload as the decoder rebuilds it: the cached id and length fields are derived. */
  function CanonicalData(d: PacketData): PacketData
  {
    match d
    case Rpc(r) => Rpc(RpcCommandStruct(CommandId(r.data), CommandDataLength(r.data), r.data))
    case RpcResult(r) => RpcResult(RpcResultStruct(r.commandResponded, StringsDataLength(r.strings), r.strings))
    case _ => d
  }

  /** The packet the decoder hands back for the encoding of `p`. */
  function Canonical(p: Packet): Packet
  {
    var e := Encode(p);
    Packet(TypeId(p.data), DataLength(p.data), CanonicalData(p.data), e[|e| - 2])
  }
}
