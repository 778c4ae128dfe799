/**
 Serial packets (kaonic/src/comm/serial/packet.cpp): a 20-byte header with a magic number, a payload
 tag and 16 bytes that are never initialised, followed by a protobuf message.
 */
module Packet {
  import opened Prelude
  import opened Packing
  import Hdlc

  type int32 = i: int | -0x8000_0000 <= i < 0x8000_0000

  datatype PhyConfig = NoPhy | Ofdm(mcs: uint32, opt: uint32) | Fsk(registers: seq<uint32>)

  datatype ConfigurationRequest = ConfigurationRequest(
    module_: uint32, freq: uint32, channel: uint32, channelSpacing: uint32, txPower: uint32, phy: PhyConfig)

  datatype TransmitRequest = TransmitRequest(module_: uint32, frame: RadioFrame)

  datatype ReceiveResponse = ReceiveResponse(module_: uint32, frame: RadioFrame, rssi: int32, latency: uint32)

  /** payload_t, a variant of three messages and error_payload. */
  datatype Payload =
    | Config(config: ConfigurationRequest)
    | Transmit(request: TransmitRequest)
    | Receive(response: ReceiveResponse)
    | ErrorPayload

  /** The generated protobuf code: SerializeToArray and ParseFromArray of each message. */
  datatype Protobuf = Protobuf(
    writeConfig: ConfigurationRequest -> seq<byte>,
    readConfig: seq<byte> -> Option<ConfigurationRequest>,
    writeTransmit: TransmitRequest -> seq<byte>,
    readTransmit: seq<byte> -> Option<TransmitRequest>,
    writeReceive: ReceiveResponse -> seq<byte>,
    readReceive: seq<byte> -> Option<ReceiveResponse>)
  {
    ghost predicate ParsesBack() {
      && (forall m :: readConfig(writeConfig(m)) == Some(m))
      && (forall m :: readTransmit(writeTransmit(m)) == Some(m))
      && (forall m :: readReceive(writeReceive(m)) == Some(m))
    }

    function Serialised(p: Payload): seq<byte> {
      match p
      case Config(c) => writeConfig(c)
      case Transmit(r) => writeTransmit(r)
      case Receive(r) => writeReceive(r)
      case ErrorPayload => []
    }
  }

  const MAGIC: byte := 0x22
  const UNKNOWN: byte := 0
  const CONFIG: byte := 1
  const TRANSMIT: byte := 2
  const RECEIVE: byte := 3
  const HEADER_SIZE: nat := 20

  function Tag(p: Payload): byte {
    match p
    case Config(_) => CONFIG
    case Transmit(_) => TRANSMIT
    case Receive(_) => RECEIVE
    case ErrorPayload => UNKNOWN
  }

  /** packet_header in memory: two little-endian 16-bit fields and whatever `reserved` held. */
  function Header(tag: byte, reserved: seq<byte>): (h: seq<byte>)
    requires |reserved| == 16
    ensures |h| == HEADER_SIZE
  {
    [MAGIC, 0, tag, 0] + reserved
  }

  function Encoded(pb: Protobuf, p: Payload, reserved: seq<byte>): seq<byte>
    requires |reserved| == 16
  {
    Header(Tag(p), reserved) + pb.Serialised(p)
  }

  /** The little-endian 16-bit field at offset `i`. */
  function Field(b: seq<byte>, i: nat): int
    requires i + 1 < |b|
  {
    b[i] as int + 0x100 * b[i + 1] as int
  }

  function Decoded(pb: Protobuf, b: seq<byte>): Payload {
    if |b| < HEADER_SIZE || Field(b, 0) != MAGIC then ErrorPayload
    else
      var body := b[HEADER_SIZE..];
      var tag := Field(b, 2);
      if tag == CONFIG && pb.readConfig(body).Some? then Config(pb.readConfig(body).value)
      else if tag == TRANSMIT && pb.readTransmit(body).Some? then Transmit(pb.readTransmit(body).value)
      else if tag == RECEIVE && pb.readReceive(body).Some? then Receive(pb.readReceive(body).value)
      else ErrorPayload
  }

  /**
   packet::encode: magic and type as little-endian 16-bit numbers, 16 bytes that are whatever the uninitialised
   header field happens to hold, and the message.
   */
  method Encode(pb: Protobuf, payload: Payload, reserved: seq<byte>) returns (buffer: seq<byte>)
    requires |reserved| == 16
    ensures buffer == Encoded(pb, payload, reserved)
    ensures match payload
            case Config(c) => buffer == [0x22, 0, 1, 0] + reserved + pb.writeConfig(c)
            case Transmit(t) => buffer == [0x22, 0, 2, 0] + reserved + pb.writeTransmit(t)
            case Receive(e) => buffer == [0x22, 0, 3, 0] + reserved + pb.writeReceive(e)
            case ErrorPayload => buffer == [0x22, 0, 0, 0] + reserved
  {
    buffer := [];
    match payload {
      case Config(c) =>
        var body := pb.writeConfig(c);
        buffer := Resize(buffer, |body| + HEADER_SIZE, 0);
        buffer := Memcpy(buffer, Header(CONFIG, reserved));
        buffer := buffer[..HEADER_SIZE] + body;
      case Transmit(r) =>
        var body := pb.writeTransmit(r);
        buffer := Resize(buffer, |body| + HEADER_SIZE, 0);
        buffer := Memcpy(buffer, Header(TRANSMIT, reserved));
        buffer := buffer[..HEADER_SIZE] + body;
      case Receive(r) =>
        var body := pb.writeReceive(r);
        buffer := Resize(buffer, |body| + HEADER_SIZE, 0);
        buffer := Memcpy(buffer, Header(RECEIVE, reserved));
        buffer := buffer[..HEADER_SIZE] + body;
      case ErrorPayload =>
        buffer := Resize(buffer, HEADER_SIZE, 0);
        buffer := Memcpy(buffer, Header(UNKNOWN, reserved));
    }
  }

  lemma HeaderFields(b: seq<byte>, t: byte)
    requires |b| >= HEADER_SIZE
    ensures b[..4] == [0x22, 0, t, 0] <==> Field(b, 0) == MAGIC && Field(b, 2) == t
  {
    assert b[..4] == [b[0], b[1], b[2], b[3]];
  }

  /** packet::decode, for every buffer. */
  method Decode(pb: Protobuf, buffer: seq<byte>) returns (payload: Payload)
    ensures payload == Decoded(pb, buffer)
    ensures |buffer| < 20 || (forall t: byte :: 1 <= t <= 3 ==> buffer[..4] != [0x22, 0, t, 0]) ==>
              payload == ErrorPayload
    ensures |buffer| >= 20 && buffer[..4] == [0x22, 0, 1, 0] ==>
              var m := pb.readConfig(buffer[20..]);
              payload == if m.Some? then Config(m.value) else ErrorPayload
    ensures |buffer| >= 20 && buffer[..4] == [0x22, 0, 2, 0] ==>
              var m := pb.readTransmit(buffer[20..]);
              payload == if m.Some? then Transmit(m.value) else ErrorPayload
    ensures |buffer| >= 20 && buffer[..4] == [0x22, 0, 3, 0] ==>
              var m := pb.readReceive(buffer[20..]);
              payload == if m.Some? then Receive(m.value) else ErrorPayload
  {
    if |buffer| < HEADER_SIZE {
      return ErrorPayload;
    }
    var magic := Field(buffer, 0);
    if magic != MAGIC {
      return ErrorPayload;
    }
    var tag := Field(buffer, 2);
    var body := buffer[HEADER_SIZE..];
    HeaderFields(buffer, 1);
    HeaderFields(buffer, 2);
    HeaderFields(buffer, 3);
    payload := ErrorPayload;
    if tag == CONFIG {
      var config := pb.readConfig(body);
      if config.Some? {
        payload := Config(config.value);
      }
    } else if tag == TRANSMIT {
      var request := pb.readTransmit(body);
      if request.Some? {
        payload := Transmit(request.value);
      }
    } else if tag == RECEIVE {
      var response := pb.readReceive(body);
      if response.Some? {
        payload := Receive(response.value);
      }
    }
  }

  lemma DecodeEncode(pb: Protobuf, p: Payload, reserved: seq<byte>)
    requires |reserved| == 16 && pb.ParsesBack()
    ensures Decoded(pb, Encoded(pb, p, reserved)) == p
  {
    assert Encoded(pb, p, reserved)[HEADER_SIZE..] == pb.Serialised(p);
  }

  /** The whole serial stack gives every payload back, whatever garbage the header carries. */
  lemma StackRoundTrip(pb: Protobuf, p: Payload, reserved: seq<byte>)
    requires |reserved| == 16 && pb.ParsesBack()
    ensures Decoded(pb, Hdlc.Unescaped(Hdlc.Escaped(Encoded(pb, p, reserved)))) == p
  {
    Hdlc.RoundTrip(Encoded(pb, p, reserved));
    DecodeEncode(pb, p, reserved);
  }

  /**
   A radio frame crosses the serial stack unchanged, with the fields that travel beside it: in a transmit
   request from client to radio, and in a receive response from radio to client.
   */
  lemma FrameRoundTrip(pb: Protobuf, s: Frame, before: RadioFrame, mod: uint32, rssi: int32, latency: uint32,
                       reserved: seq<byte>)
    requires |reserved| == 16 && pb.ParsesBack()
    ensures var p := Transmit(TransmitRequest(mod, UnpackedFrame(before, s)));
            var q := Decoded(pb, Hdlc.Unescaped(Hdlc.Escaped(Encoded(pb, p, reserved))));
            q.Transmit? && q.request.module_ == mod && Packed(q.request.frame) == s
    ensures var p := Receive(ReceiveResponse(mod, UnpackedFrame(before, s), rssi, latency));
            var q := Decoded(pb, Hdlc.Unescaped(Hdlc.Escaped(Encoded(pb, p, reserved))));
            && q.Receive? && Packed(q.response.frame) == s
            && q.response.module_ == mod && q.response.rssi == rssi && q.response.latency == latency
  {
    StackRoundTrip(pb, Transmit(TransmitRequest(mod, UnpackedFrame(before, s))), reserved);
    StackRoundTrip(pb, Receive(ReceiveResponse(mod, UnpackedFrame(before, s), rssi, latency)), reserved);
    PackUnpack(before, s);
  }

  // ----- Sizes on the wire -----

  function VarintSize(w: nat): nat
    decreases w
  {
    if w < 0x80 then 1 else 1 + VarintSize(w / 0x80)
  }

  function VarintsSize(ws: seq<uint32>): nat {
    if ws == [] then 0 else VarintSize(ws[0]) + VarintsSize(ws[1..])
  }

  /** A proto3 scalar field with a one-byte key; zero is not sent. */
  function ScalarSize(w: nat): nat {
    if w == 0 then 0 else 1 + VarintSize(w)
  }

  /** A length-delimited field with a one-byte key. */
  function NestedSize(n: nat): nat {
    1 + VarintSize(n) + n
  }

  /** `data` is packed, the proto3 default for a repeated scalar. */
  function RadioFrameSize(f: RadioFrame): nat {
    (if f.data == [] then 0 else NestedSize(VarintsSize(f.data))) + ScalarSize(f.length)
  }

  function TransmitSize(r: TransmitRequest): nat {
    ScalarSize(r.module_) + NestedSize(RadioFrameSize(r.frame))
  }

  /** A negative int32 is sent as a 64-bit varint of ten bytes. */
  function ReceiveSize(r: ReceiveResponse): nat {
    ScalarSize(r.module_) + NestedSize(RadioFrameSize(r.frame)) +
    (if r.rssi < 0 then 11 else ScalarSize(r.rssi)) + ScalarSize(r.latency)
  }

  /** A varint carries seven bits a byte. */
  lemma VarintBound(w: nat)
    ensures VarintSize(w) <= 1 <==> w < 0x80
    ensures VarintSize(w) <= 2 <==> w < 0x4000
    ensures VarintSize(w) <= 3 <==> w < 0x20_0000
    ensures VarintSize(w) <= 4 <==> w < 0x1000_0000
    ensures VarintSize(w) <= 5 <==> w < 0x8_0000_0000
  {
    var a := w / 0x80;
    var b := a / 0x80;
    var c := b / 0x80;
    var d := c / 0x80;
    assert b == w / 0x4000 && c == w / 0x20_0000 && d == w / 0x1000_0000 && d / 0x80 == w / 0x8_0000_0000;
    assert VarintSize(w) == if w < 0x80 then 1 else 1 + VarintSize(a);
    assert VarintSize(a) == if a < 0x80 then 1 else 1 + VarintSize(b);
    assert VarintSize(b) == if b < 0x80 then 1 else 1 + VarintSize(c);
    assert VarintSize(c) == if c < 0x80 then 1 else 1 + VarintSize(d);
    assert VarintSize(d) == if d < 0x80 then 1 else 1 + VarintSize(d / 0x80);
  }

  lemma {:induction false} VarintsBound(ws: seq<uint32>)
    ensures VarintsSize(ws) <= 5 * |ws|
    decreases |ws|
  {
    if ws != [] {
      VarintBound(ws[0]);
      VarintsBound(ws[1..]);
    }
  }

  lemma RadioFrameBound(before: RadioFrame, s: seq<byte>)
    requires |s| <= 2048
    ensures RadioFrameSize(UnpackedFrame(before, s)) <= 2570
  {
    var f := UnpackedFrame(before, s);
    assert |f.data| <= 512;
    VarintsBound(f.data);
    VarintBound(VarintsSize(f.data));
    VarintBound(f.length);
  }

  /** Every frame a radio can carry (radio.hpp:10) fits the deframer's limit, in both directions. */
  lemma RadioFramesFit(pb: Protobuf, before: RadioFrame, s: seq<byte>, p: Payload, reserved: seq<byte>)
    requires |s| <= 2048 && |reserved| == 16
    requires p.Transmit? || p.Receive?
    requires (if p.Transmit? then p.request.frame else p.response.frame) == UnpackedFrame(before, s)
    requires |pb.Serialised(p)| == if p.Transmit? then TransmitSize(p.request) else ReceiveSize(p.response)
    ensures |Hdlc.Escaped(Encoded(pb, p, reserved))| <= 10240
  {
    RadioFrameBound(before, s);
    VarintBound(RadioFrameSize(UnpackedFrame(before, s)));
    if p.Transmit? {
      VarintBound(p.request.module_);
    } else {
      VarintBound(p.response.module_);
      VarintBound(p.response.latency);
      if p.response.rssi >= 0 {
        VarintBound(p.response.rssi);
      }
    }
    Hdlc.SafePacketSize(5119);
  }
}
