/** serial_service: the receive loop, the packet dispatch, and what the line can make the radio do. */
module SerialService {
  import opened Prelude
  import opened Packing
  import opened Packet
  import opened Hdlc
  import opened Deframer
  import opened SerialPump

  /** A call into the radio service. */
  datatype RadioCall =
    | Configure(module_: byte, freq: uint32, channel: byte, channelSpacing: uint32)
    | Send(module_: byte, data: seq<byte>)

  /** What one payload asks of the radio; the module and the channel are narrowed to uint8_t. */
  function CallsOf(p: Payload): seq<RadioCall> {
    match p
    case Config(c) => [Configure(c.module_ % 0x100, c.freq, c.channel % 0x100, c.channelSpacing)]
    case Transmit(r) => [Send(r.module_ % 0x100, Packed(r.frame))]
    case Receive(_) => []
    case ErrorPayload => []
  }

  function AllCalls(ps: seq<Payload>): seq<RadioCall> {
    if ps == [] then [] else AllCalls(ps[..|ps| - 1]) + CallsOf(ps[|ps| - 1])
  }

  lemma CallsOfChecksum(w: Wire, p: Pump, r: seq<byte>)
    ensures AllCalls(TakeCrc(w, p, r).out) ==
            AllCalls(p.out) + if CrcMatches(w, r, p.frame.buf) then CallsOf(Decoded(w.pb, Unescaped(p.frame.buf))) else []
  {
    if CrcMatches(w, r, p.frame.buf) {
      var next := TakeCrc(w, p, r).out;
      assert next[..|next| - 1] == p.out;
    } else {
      assert p.out + [] == p.out;
    }
  }

  class Service {
    const wire: Wire
    const processor: HdlcProcessor
    const hdlcBuffer: Buffer
    const frame: Buffer
    var unescapedBuffer: seq<byte>
    var txPayload: Payload
    var radioCalls: seq<RadioCall>

    const rxFrame: Message          // the frame of the response that receive_frame fills
    var rxProtobuf: seq<byte>
    var escapedBuffer: seq<byte>
    var written: seq<byte>          // everything written to the line so far

    ghost predicate Valid()
      reads this, processor
    {
      hdlcBuffer != frame && processor.maxHdlcSize == wire.max
    }

    /** The loop entered with `byte` zero and the deframer as it was left. */
    function Entry(): Pump
      reads this, processor, hdlcBuffer
    {
      Pump(processor.Current(hdlcBuffer), 0, false, [])
    }

    constructor (wire: Wire)
      ensures Valid() && radioCalls == []
      ensures Entry() == Pump(Deframer.State(false, []), 0, false, [])
      ensures this.wire == wire
      ensures fresh(processor) && fresh(hdlcBuffer) && fresh(frame) && fresh(rxFrame)
      ensures written == []
    {
      this.wire := wire;
      processor := new HdlcProcessor(wire.max);
      hdlcBuffer := new Buffer();
      frame := new Buffer();
      rxFrame := new Message();
      unescapedBuffer, txPayload, radioCalls := [], ErrorPayload, [];
      rxProtobuf, escapedBuffer, written := [], [], [];
    }

    /**
     serial_service::receive_frame: the frame goes out in a receive response for module 0, of which the line takes
     as much as it has room for. The stuffed form is computed but the packet is written as it is.
     */
    method ReceiveFrame(data: Frame, reserved: seq<byte>, room: nat) returns (sent: nat)
      requires |reserved| == 16
      modifies this`rxProtobuf, this`escapedBuffer, this`written, rxFrame
      ensures rxProtobuf == [0x22, 0, 3, 0] + reserved + wire.pb.writeReceive(ReceiveResponse(0, rxFrame.Value(), 0, 0))
      ensures sent == (if room < |rxProtobuf| then room else |rxProtobuf|) && written == old(written) + rxProtobuf[..sent]
      ensures Packed(rxFrame.Value()) == data && escapedBuffer == Escaped(rxProtobuf)
      ensures wire.pb.ParsesBack() ==> Decoded(wire.pb, rxProtobuf) == Receive(ReceiveResponse(0, rxFrame.Value(), 0, 0))
    {
      PackUnpack(rxFrame.Value(), data);
      BufUnpack(data, rxFrame);
      var response := Receive(ReceiveResponse(0, rxFrame.Value(), 0, 0));
      rxProtobuf := Encode(wire.pb, response, reserved);
      if wire.pb.ParsesBack() {
        DecodeEncode(wire.pb, response, reserved);
      }
      escapedBuffer := Escape(rxProtobuf);
      sent := if room < |rxProtobuf| then room else |rxProtobuf|;
      written := written + rxProtobuf[..sent];
    }

    /** serial_service::handle_packet; the results of the radio calls are only logged. */
    method HandlePacket(payload: Payload)
      modifies this`radioCalls, frame
      ensures radioCalls == old(radioCalls) + CallsOf(payload)
      ensures radioCalls == old(radioCalls) +
                            match payload
                            case Config(c) => [Configure(c.module_ % 0x100, c.freq, c.channel % 0x100, c.channelSpacing)]
                            case Transmit(t) => [Send(t.module_ % 0x100, Packed(t.frame))]
                            case _ => []
    {
      match payload {
        case Config(c) =>
          radioCalls := radioCalls + [Configure(c.module_ % 0x100, c.freq, c.channel % 0x100, c.channelSpacing)];
        case Transmit(r) =>
          BufPack(r.frame, frame);
          radioCalls := radioCalls + [Send(r.module_ % 0x100, frame.data)];
        case Receive(_) =>
        case ErrorPayload =>
      }
    }

    /** The object agrees with the pump `p`, having started with the radio calls `base`. */
    ghost predicate At(p: Pump, base: seq<RadioCall>)
      reads this, processor, hdlcBuffer
    {
      Valid() && processor.Current(hdlcBuffer) == p.frame && radioCalls == base + AllCalls(p.out)
    }

    /** The first half of an iteration: one byte goes through the deframer. */
    method TakeElement(b: byte, ghost p: Pump, ghost base: seq<RadioCall>) returns (complete: bool)
      requires At(p, base) && !p.awaitingCrc
      modifies processor, hdlcBuffer
      ensures At(TakeByte(wire, p, b), base) && complete == TakeByte(wire, p, b).awaitingCrc
    {
      if wire.version == AsWritten {
        complete := processor.Update(b, hdlcBuffer);
      } else {
        complete := processor.UpdateIntended(b, hdlcBuffer);
      }
    }

    /** The second half of an iteration: compare the checksum, decode, dispatch. */
    method TakeChecksum(check: seq<byte>, ghost p: Pump, ghost base: seq<RadioCall>)
      requires At(p, base)
      modifies this`radioCalls, this`unescapedBuffer, this`txPayload, frame
      ensures At(TakeCrc(wire, p, check), base)
    {
      CallsOfChecksum(wire, p, check);
      if |check| != 4 {
        return;
      }
      var expected := Word(check[0], check[1], check[2], check[3]);
      var actual := wire.crc(hdlcBuffer.data);
      if expected != actual {
        return;
      }
      unescapedBuffer := Unescape(hdlcBuffer.data);
      txPayload := Decode(wire.pb, unescapedBuffer);
      HandlePacket(txPayload);
    }

    /** serial_service::tx, from its start until the active flag is cleared; one entry of `script` per read call. */
    method Tx(script: Script)
      requires Valid() && wire.version == AsWritten
      modifies this`radioCalls, this`unescapedBuffer, this`txPayload, processor, hdlcBuffer, frame
      ensures Valid()
      ensures var end := Run(wire, old(Entry()), script);
              processor.Current(hdlcBuffer) == end.frame &&
              radioCalls == old(radioCalls) + AllCalls(end.out)
    {
      var b: byte := 0;
      var i := 0;
      ghost var start := Entry();
      ghost var p := start;
      while i < |script|
        invariant i <= |script|
        invariant p == Run(wire, start, script[..i]) && (p.awaitingCrc ==> i == |script|)
        invariant p.last == b && At(p, old(radioCalls))
      {
        var got := script[i];
        RunNext(wire, start, script, i);
        i := i + 1;
        if got != [] {
          b := got[0];
        }
        var complete := TakeElement(b, p, old(radioCalls));
        p := Step(wire, p, got);
        if complete && i < |script| {
          var check := script[i];
          RunNext(wire, start, script, i);
          i := i + 1;
          TakeChecksum(check, p, old(radioCalls));
          p := Step(wire, p, check);
        }
      }
      assert script[..i] == script;
    }

    /** The loop with its two evident slips corrected: the opening flag, and the comparison of bytes_read with 0. */
    method TxIntended(script: Script)
      requires Valid() && wire.version == Intended
      modifies this`radioCalls, this`unescapedBuffer, this`txPayload, processor, hdlcBuffer, frame
      ensures Valid()
      ensures var end := Run(wire, old(Entry()), script);
              processor.Current(hdlcBuffer) == end.frame &&
              radioCalls == old(radioCalls) + AllCalls(end.out)
    {
      var i := 0;
      ghost var start := Entry();
      ghost var p := start;
      while i < |script|
        invariant i <= |script|
        invariant p == Run(wire, start, script[..i]) && (p.awaitingCrc ==> i == |script|)
        invariant At(p, old(radioCalls))
      {
        var got := script[i];
        RunNext(wire, start, script, i);
        i := i + 1;
        if got == [] {
          continue;
        }
        var complete := TakeElement(got[0], p, old(radioCalls));
        p := Step(wire, p, got);
        if complete && i < |script| {
          var check := script[i];
          RunNext(wire, start, script, i);
          i := i + 1;
          TakeChecksum(check, p, old(radioCalls));
          p := Step(wire, p, check);
        }
      }
      assert script[..i] == script;
    }
  }

  lemma {:induction false} ErrorsCallNothing(ps: seq<Payload>)
    requires OnlyErrors(ps)
    ensures AllCalls(ps) == []
    decreases |ps|
  {
    if ps != [] {
      ErrorsCallNothing(ps[..|ps| - 1]);
    }
  }

  /** As written, no input on the serial line ever configures a radio or transmits a frame. */
  lemma AsWrittenNeverReachesTheRadio(w: Wire, p: Pump, script: Script)
    requires w.version == AsWritten && Inert(p) && p.out == []
    ensures AllCalls(Run(w, p, script).out) == []
  {
    AsWrittenIsInert(w, p, script);
    var q := Run(w, p, script);
    assert q.out[|p.out|..] == q.out;
    ErrorsCallNothing(q.out);
  }

  /**
   What the intended loop makes of one packet: a radio call exactly if the four bytes behind it are its checksum.
   A transmit request is sent with the sender's bytes, a configuration is applied without its modulation, and
   a receive response is ignored.
   */
  lemma IntendedCalls(w: Wire, p: Payload, reserved: seq<byte>, check: seq<byte>)
    requires w.version == Intended && w.pb.ParsesBack() && |reserved| == 16
    requires |Escaped(Encoded(w.pb, p, reserved))| <= w.max
    ensures var d := Encoded(w.pb, p, reserved);
            var start := Pump(Deframer.State(false, []), 0, false, []);
            AllCalls(Run(w, start, ItemScript(Sent(d, check))).out) ==
            if |check| != 4 || check[0] as int + 0x100 * check[1] as int + 0x1_0000 * check[2] as int +
                               0x100_0000 * check[3] as int != w.crc(Escaped(d)) then []
            else
              match p
              case Config(c) => [Configure(c.module_ % 0x100, c.freq, c.channel % 0x100, c.channelSpacing)]
              case Transmit(t) => [Send(t.module_ % 0x100, Packed(t.frame))]
              case Receive(_) => []
              case ErrorPayload => []
  {
    var start := Pump(Deframer.State(false, []), 0, false, []);
    OnePacket(w, start, p, reserved, check);
    assert AllCalls([p]) == CallsOf(p) by {
      assert [p][..0] == [];
    }
  }

  lemma OnePacket(w: Wire, start: Pump, p: Payload, reserved: seq<byte>, check: seq<byte>)
    requires w.version == Intended && w.pb.ParsesBack() && |reserved| == 16
    requires |Escaped(Encoded(w.pb, p, reserved))| <= w.max && Ready(start) && start.out == []
    ensures var d := Encoded(w.pb, p, reserved);
            Run(w, start, ItemScript(Sent(d, check))).out ==
            if |check| != 4 || check[0] as int + 0x100 * check[1] as int + 0x1_0000 * check[2] as int +
                               0x100_0000 * check[3] as int != w.crc(Escaped(d)) then []
            else [p]
  {
    PacketDecodedExactly(w, start, Encoded(w.pb, p, reserved), check);
    DecodeEncode(w.pb, p, reserved);
    assert start.out + [p] == [p];
  }

  /** The intended loop makes one radio call per accepted transmit packet, carrying the sender's bytes. */
  lemma IntendedTransmits(w: Wire, mod: uint32, s: Frame, before: RadioFrame, reserved: seq<byte>, check: seq<byte>)
    requires w.version == Intended && w.pb.ParsesBack() && |reserved| == 16
    requires var d := Encoded(w.pb, Transmit(TransmitRequest(mod, UnpackedFrame(before, s))), reserved);
             |Escaped(d)| <= w.max && CrcMatches(w, check, Escaped(d))
    ensures var d := Encoded(w.pb, Transmit(TransmitRequest(mod, UnpackedFrame(before, s))), reserved);
            var start := Pump(Deframer.State(false, []), 0, false, []);
            AllCalls(Run(w, start, ItemScript(Sent(d, check))).out) == [Send(mod % 0x100, s)]
  {
    IntendedCalls(w, Transmit(TransmitRequest(mod, UnpackedFrame(before, s))), reserved, check);
    PackUnpack(before, s);
  }

  /**
   What receive_frame writes never reaches a client that expects frames: the corrected loop at the other end
   takes a packet without flags for noise. Stuffed and followed by its checksum it would be delivered.
   */
  lemma OutboundIsUnframed(w: Wire, p: Pump, payload: Payload, reserved: seq<byte>, check: seq<byte>)
    requires w.version == Intended && Ready(p) && w.pb.ParsesBack() && |reserved| == 16
    ensures var d := Encoded(w.pb, payload, reserved); FlagFree(d) ==> RunLine(w, p, d) == p
    ensures var d := Encoded(w.pb, payload, reserved);
            |Escaped(d)| <= w.max && CrcMatches(w, check, Escaped(d)) ==>
              RunLine(w, p, Escaped(d) + check).out == p.out + [payload]
  {
    var d := Encoded(w.pb, payload, reserved);
    if FlagFree(d) {
      LineNoise(w, p, d);
    }
    if |Escaped(d)| <= w.max && CrcMatches(w, check, Escaped(d)) {
      PayloadsDelivered(w, p, [Sent(d, check)], [payload], [reserved]);
      assert LineOf([Sent(d, check)]) == Escaped(d) + check;
    }
  }
}
