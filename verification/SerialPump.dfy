/**
 The receive loop of the serial service (serial_service.cpp:76-117) as a machine over read results.
 One entry of a script is what one call of serial::read delivered: the bytes read, or [] after a
 timeout or an error. A script therefore fixes the whole behaviour of the line.
 */
module SerialPump {
  import opened Prelude
  import opened Packing
  import opened Packet
  import opened Hdlc
  import opened Deframer

  /** What the loop is compiled with: the code version, the generated and library functions, the size limit. */
  datatype Wire = Wire(version: Version, pb: Protobuf, crc: seq<byte> -> uint32, max: nat)

  /**
   `last` is the local variable `byte`, which a failed read leaves as it was; `awaitingCrc` tells that
   the loop stands at its second read; `out` lists the payloads handed to handle_packet.
   */
  datatype Pump = Pump(frame: Deframer.State, last: byte, awaitingCrc: bool, out: seq<Payload>)

  type Script = seq<seq<byte>>

  /** The 32-bit checksum that was read; only a full read of four bytes is compared. */
  predicate CrcMatches(w: Wire, r: seq<byte>, data: seq<byte>) {
    |r| == 4 && Word(r[0], r[1], r[2], r[3]) == w.crc(data)
  }

  function TakeByte(w: Wire, p: Pump, b: byte): Pump {
    var o := Updated(w.version, w.max, p.frame, b);
    p.(frame := o.next, awaitingCrc := o.complete)
  }

  function TakeCrc(w: Wire, p: Pump, r: seq<byte>): Pump {
    p.(awaitingCrc := false,
       out := p.out + if CrcMatches(w, r, p.frame.buf) then [Decoded(w.pb, Unescaped(p.frame.buf))] else [])
  }

  /**
   As written, `bytes_read < 0` never holds of a size_t and `bytes_read = 0` assigns, so a read that
   delivered nothing feeds the previous byte again. The intended loop skips it.
   */
  function Step(w: Wire, p: Pump, r: seq<byte>): Pump {
    if p.awaitingCrc then TakeCrc(w, p, r)
    else match w.version
      case AsWritten =>
        var b := if r == [] then p.last else r[0];
        TakeByte(w, p, b).(last := b)
      case Intended =>
        if r == [] then p else TakeByte(w, p, r[0])
  }

  function Run(w: Wire, p: Pump, script: Script): Pump {
    if script == [] then p
    else Step(w, Run(w, p, script[..|script| - 1]), script[|script| - 1])
  }

  lemma {:induction false} RunConcat(w: Wire, p: Pump, a: Script, b: Script)
    ensures Run(w, p, a + b) == Run(w, Run(w, p, a), b)
    decreases |b|
  {
    if b == [] {
      assert a + b == a;
    } else {
      var n := |b| - 1;
      RunConcat(w, p, a, b[..n]);
      assert (a + b)[..|a + b| - 1] == a + b[..n];
    }
  }

  lemma RunOne(w: Wire, p: Pump, r: seq<byte>)
    ensures Run(w, p, [r]) == Step(w, p, r)
  {
    assert Run(w, p, [r][..0]) == p;
  }

  lemma RunNext(w: Wire, p: Pump, script: Script, i: nat)
    requires i < |script|
    ensures Run(w, p, script[..i + 1]) == Step(w, Run(w, p, script[..i]), script[i])
  {
    assert script[..i + 1][..i] == script[..i];
  }

  // ----- The code as written -----

  /** The deframer never stays in a frame, so it never holds more than the flag it has just seen. */
  ghost predicate Inert(p: Pump) {
    && !p.frame.inFrame
    && p.frame.buf in [[], [FLAG]]
    && (p.awaitingCrc ==> p.frame.buf == [FLAG])
  }

  ghost predicate OnlyErrors(ps: seq<Payload>) {
    forall k :: 0 <= k < |ps| ==> ps[k] == ErrorPayload
  }

  /** Whatever arrives on the line, the loop as written decodes nothing but error_payload. */
  lemma {:induction false} AsWrittenIsInert(w: Wire, p: Pump, script: Script)
    requires w.version == AsWritten && Inert(p)
    ensures var q := Run(w, p, script);
            Inert(q) && p.out <= q.out && OnlyErrors(q.out[|p.out|..])
    decreases |script|
  {
    if script != [] {
      var n := |script| - 1;
      AsWrittenIsInert(w, p, script[..n]);
      FlagAloneIsEmpty();
    }
  }

  /** The checksum read delivers four bytes, and they are the checksum of a lone flag. */
  predicate FlagChecksum(w: Wire, r: seq<byte>) {
    && |r| == 4
    && r[0] as int + 0x100 * r[1] as int + 0x1_0000 * r[2] as int + 0x100_0000 * r[3] as int == w.crc([0x7E])
  }

  /**
   What a script means to the loop as written, in the terms of the line: a read that delivers nothing repeats
   the byte before it, each flag met asks for one checksum read, and each of those that delivers the checksum
   of a lone flag makes one error payload.
   */
  function ErrorCount(w: Wire, last: byte, script: Script): nat
    decreases |script|
  {
    if script == [] then 0
    else
      var b := if script[0] == [] then last else script[0][0];
      if b != 0x7E then ErrorCount(w, b, script[1..])
      else if |script| == 1 then 0
      else (if FlagChecksum(w, script[1]) then 1 else 0) + ErrorCount(w, b, script[2..])
  }

  lemma RunFirst(w: Wire, p: Pump, script: Script)
    requires script != []
    ensures Run(w, p, script) == Run(w, Step(w, p, script[0]), script[1..])
  {
    RunConcat(w, p, [script[0]], script[1..]);
    RunOne(w, p, script[0]);
    assert [script[0]] + script[1..] == script;
  }

  function Errors(n: nat): seq<Payload> {
    seq(n, _ => ErrorPayload)
  }

  /** Exactly what the loop as written hands on, for every behaviour of the line. */
  lemma {:induction false} AsWrittenOutput(w: Wire, p: Pump, script: Script)
    requires w.version == AsWritten && Inert(p) && !p.awaitingCrc
    ensures Run(w, p, script).out == p.out + Errors(ErrorCount(w, p.last, script))
    decreases |script|
  {
    if script == [] {
      assert p.out + [] == p.out;
    } else {
      RunFirst(w, p, script);
      var q := Step(w, p, script[0]);
      if !q.awaitingCrc {
        AsWrittenOutput(w, q, script[1..]);
      } else if |script| == 1 {
        assert p.out + [] == p.out;
      } else {
        RunFirst(w, q, script[1..]);
        assert script[1..][1..] == script[2..];
        FlagAloneIsEmpty();
        AsWrittenOutput(w, Step(w, q, script[1]), script[2..]);
      }
    }
  }

  /** As written, a byte read that delivers nothing does what reading the previous byte again would do. */
  lemma TimeoutRepeatsByte(w: Wire, p: Pump, a: Script, b: Script)
    requires w.version == AsWritten && !Run(w, p, a).awaitingCrc
    ensures Run(w, p, a + [[]] + b) == Run(w, p, a + [[Run(w, p, a).last]] + b)
  {
    var q := Run(w, p, a);
    RunConcat(w, p, a + [[]], b);
    RunConcat(w, p, a, [[]]);
    RunOne(w, q, []);
    RunConcat(w, p, a + [[q.last]], b);
    RunConcat(w, p, a, [[q.last]]);
    RunOne(w, q, [q.last]);
  }

  /** So a timeout after a flag and its checksum asks for another checksum. */
  lemma TimeoutRepeatsFlag(w: Wire, p: Pump, check: seq<byte>)
    requires w.version == AsWritten && Inert(p) && !p.awaitingCrc
    ensures var q := Run(w, p, [[0x7E], check, []]);
            q.awaitingCrc && q.frame.buf == [0x7E] && q.last == 0x7E
  {
    var script: Script := [[0x7E], check, []];
    RunFirst(w, p, script);
    var q := Step(w, p, [0x7E]);
    assert script[1..] == [check, []];
    RunFirst(w, q, [check, []]);
    assert [check, []][1..] == [[]];
    RunOne(w, Step(w, q, check), []);
  }

  lemma FlagAloneIsEmpty()
    ensures Unescaped([FLAG]) == []
  {
    UnescapedIsMeaning([FLAG]);
  }

  // ----- The intended loop -----

  predicate Ready(p: Pump) {
    !p.awaitingCrc && !p.frame.inFrame
  }

  /** Bytes read one at a time. */
  function Singles(bs: seq<byte>): (s: Script)
    ensures |s| == |bs|
  {
    seq(|bs|, i requires 0 <= i < |bs| => [bs[i]])
  }

  lemma SinglesConcat(a: seq<byte>, b: seq<byte>)
    ensures Singles(a + b) == Singles(a) + Singles(b)
  {
  }

  /** What happens on the line, from the sender's point of view. */
  datatype Item =
    | Silence                                       // a read that times out
    | Noise(b: byte)
    | Sent(packet: seq<byte>, check: seq<byte>)     // an escaped packet, then what the checksum read delivers

  function ItemScript(i: Item): Script {
    match i
    case Silence => [[]]
    case Noise(b) => [[b]]
    case Sent(d, c) => Singles(Escaped(d)) + [c]
  }

  function ScriptOf(items: seq<Item>): Script {
    if items == [] then [] else ItemScript(items[0]) + ScriptOf(items[1..])
  }

  /** Noise holds no flag, and packets fit the deframer. The checksum is unconstrained: its bytes may be flags. */
  predicate Fits(w: Wire, i: Item) {
    match i
    case Silence => true
    case Noise(b) => b != FLAG
    case Sent(d, _) => |Escaped(d)| <= w.max
  }

  function AcceptedItem(w: Wire, i: Item): seq<Payload> {
    if i.Sent? && CrcMatches(w, i.check, Escaped(i.packet)) then [Decoded(w.pb, i.packet)] else []
  }

  /** The packets whose checksum matches, decoded, in the order they were sent. */
  function Accepted(w: Wire, items: seq<Item>): seq<Payload> {
    if items == [] then [] else AcceptedItem(w, items[0]) + Accepted(w, items[1..])
  }

  lemma {:induction false} FeedInside(w: Wire, p: Pump, bs: seq<byte>)
    requires w.version == Intended && !p.awaitingCrc && p.frame.inFrame
    requires FlagFree(bs) && |p.frame.buf| + |bs| <= w.max
    ensures Run(w, p, Singles(bs)) == p.(frame := State(true, p.frame.buf + bs))
    decreases |bs|
  {
    if bs != [] {
      var n := |bs| - 1;
      FeedInside(w, p, bs[..n]);
      assert Singles(bs)[..n] == Singles(bs[..n]);
      assert p.frame.buf + bs == (p.frame.buf + bs[..n]) + [bs[n]];
    } else {
      assert p.frame.buf + bs == p.frame.buf;
    }
  }

  lemma {:induction false} FeedOutside(w: Wire, p: Pump, bs: seq<byte>)
    requires w.version == Intended && Ready(p) && FlagFree(bs)
    ensures Run(w, p, Singles(bs)) == p
    decreases |bs|
  {
    if bs != [] {
      var n := |bs| - 1;
      FeedOutside(w, p, bs[..n]);
      assert Singles(bs)[..n] == Singles(bs[..n]);
    }
  }

  /** The opening flag and the first `n` body bytes, as far as they fit. */
  lemma FeedStart(w: Wire, p: Pump, bs: seq<byte>)
    requires w.version == Intended && Ready(p)
    requires FlagFree(bs) && 1 + |bs| <= w.max
    ensures Run(w, p, Singles([FLAG] + bs)) == p.(frame := State(true, [FLAG] + bs))
  {
    var p1 := p.(frame := State(true, [FLAG]));
    SinglesConcat([FLAG], bs);
    RunConcat(w, p, Singles([FLAG]), Singles(bs));
    assert Singles([FLAG]) == [[FLAG]];
    RunOne(w, p, [FLAG]);
    FeedInside(w, p1, bs);
  }

  lemma FeedOverrun(w: Wire, p: Pump, bs: seq<byte>)
    requires w.version == Intended && !p.awaitingCrc && p.frame.inFrame
    requires FlagFree(bs) && |p.frame.buf| == w.max
    ensures Run(w, p, Singles(bs + [FLAG])) == p.(frame := if bs == [] then State(false, []) else State(true, [FLAG]))
  {
    var all := bs + [FLAG];
    var p1 := p.(frame := State(false, []));
    assert Singles(all) == [[all[0]]] + Singles(all[1..]);
    RunConcat(w, p, [[all[0]]], Singles(all[1..]));
    RunOne(w, p, [all[0]]);
    assert Step(w, p, [all[0]]) == p1;
    if bs == [] {
      assert Singles(all[1..]) == [];
    } else {
      assert all[1..] == bs[1..] + [FLAG];
      SinglesConcat(bs[1..], [FLAG]);
      RunConcat(w, p1, Singles(bs[1..]), Singles([FLAG]));
      FeedOutside(w, p1, bs[1..]);
      assert Singles([FLAG]) == [[FLAG]];
      RunOne(w, p1, [FLAG]);
    }
  }

  lemma FittingFrame(w: Wire, p: Pump, d: seq<byte>)
    requires w.version == Intended && Ready(p) && |Escaped(d)| <= w.max
    ensures Run(w, p, Singles(Escaped(d))) == p.(frame := State(false, Escaped(d)), awaitingCrc := true)
  {
    var start := [FLAG] + Stuffed(d);
    StuffedIsCanonical(d);
    FeedStart(w, p, Stuffed(d));
    SinglesConcat(start, [FLAG]);
    RunConcat(w, p, Singles(start), Singles([FLAG]));
    assert Singles([FLAG]) == [[FLAG]];
    RunOne(w, p.(frame := State(true, start)), [FLAG]);
  }

  lemma OverlongFrame(w: Wire, p: Pump, body: seq<byte>)
    requires w.version == Intended && Ready(p) && w.max >= 1
    requires FlagFree(body) && |body| + 2 > w.max
    ensures Run(w, p, Singles([FLAG] + body + [FLAG])) ==
            p.(frame := if |body| + 1 == w.max then State(false, []) else State(true, [FLAG]))
  {
    var m := w.max - 1;
    var full, rest := [FLAG] + body[..m], body[m..] + [FLAG];
    assert [FLAG] + body + [FLAG] == full + rest;
    SinglesConcat(full, rest);
    FeedStart(w, p, body[..m]);
    RunConcat(w, p, Singles(full), Singles(rest));
    FeedOverrun(w, p.(frame := State(true, full)), body[m..]);
  }

  /** A frame reaches the checksum stage exactly when it fits; otherwise nothing of it is delivered, and a
      frame more than one byte too long leaves its closing flag behind as the opening of a bogus frame. */
  lemma FrameCompletes(w: Wire, p: Pump, d: seq<byte>)
    requires w.version == Intended && Ready(p) && w.max >= 1
    ensures var n := |Escaped(d)|;
            Run(w, p, Singles(Escaped(d))) ==
            if n <= w.max then p.(frame := State(false, Escaped(d)), awaitingCrc := true)
            else if n == w.max + 1 then p.(frame := State(false, []))
            else p.(frame := State(true, [FLAG]))
  {
    if |Escaped(d)| <= w.max {
      FittingFrame(w, p, d);
    } else {
      StuffedIsCanonical(d);
      OverlongFrame(w, p, Stuffed(d));
    }
  }

  lemma ItemDelivered(w: Wire, p: Pump, i: Item)
    requires w.version == Intended && Ready(p) && Fits(w, i)
    ensures Ready(Run(w, p, ItemScript(i)))
    ensures Run(w, p, ItemScript(i)).out == p.out + AcceptedItem(w, i)
  {
    match i
    case Silence =>
      RunOne(w, p, []);
    case Noise(b) =>
      RunOne(w, p, [b]);
    case Sent(d, c) =>
      var p1 := p.(frame := State(false, Escaped(d)), awaitingCrc := true);
      FittingFrame(w, p, d);
      RunConcat(w, p, Singles(Escaped(d)), [c]);
      RunOne(w, p1, c);
      RoundTrip(d);
  }

  /** The loop hands on exactly the packets whose checksum matches, in order. */
  lemma {:induction false} Reassembly(w: Wire, p: Pump, items: seq<Item>)
    requires w.version == Intended && Ready(p)
    requires forall k :: 0 <= k < |items| ==> Fits(w, items[k])
    ensures Ready(Run(w, p, ScriptOf(items)))
    ensures Run(w, p, ScriptOf(items)).out == p.out + Accepted(w, items)
    decreases |items|
  {
    if items == [] {
      assert p.out + [] == p.out;
    } else {
      var first, rest := ItemScript(items[0]), ScriptOf(items[1..]);
      var p1 := Run(w, p, first);
      ItemDelivered(w, p, items[0]);
      RunConcat(w, p, first, rest);
      Reassembly(w, p1, items[1..]);
      AppendAssociates(p.out, AcceptedItem(w, items[0]), Accepted(w, items[1..]));
    }
  }

  // ----- The same on a stream of bytes -----

  /** The loop on a line that delivers every byte it is asked for: one, or four once a frame is complete. */
  function RunLine(w: Wire, p: Pump, line: seq<byte>): Pump
    decreases |line|
  {
    if line == [] then p
    else
      var n := if !p.awaitingCrc then 1 else if |line| < 4 then |line| else 4;
      RunLine(w, Step(w, p, line[..n]), line[n..])
  }

  /** The bytes of an item on the line; silence has none. */
  function ItemLine(i: Item): seq<byte> {
    match i
    case Silence => []
    case Noise(b) => [b]
    case Sent(d, c) => Escaped(d) + c
  }

  function LineOf(items: seq<Item>): seq<byte> {
    if items == [] then [] else ItemLine(items[0]) + LineOf(items[1..])
  }

  predicate FullCheck(i: Item) {
    i.Sent? ==> |i.check| == 4
  }

  lemma LineByte(w: Wire, p: Pump, b: byte, rest: seq<byte>)
    requires !p.awaitingCrc
    ensures RunLine(w, p, [b] + rest) == RunLine(w, Step(w, p, [b]), rest)
  {
    var line := [b] + rest;
    assert line[..1] == [b] && line[1..] == rest;
  }

  lemma LineCheck(w: Wire, p: Pump, c: seq<byte>, rest: seq<byte>)
    requires p.awaitingCrc && |c| == 4
    ensures RunLine(w, p, c + rest) == RunLine(w, Step(w, p, c), rest)
  {
    var line := c + rest;
    assert line[..4] == c && line[4..] == rest;
  }

  lemma {:induction false} LineNoise(w: Wire, p: Pump, bs: seq<byte>)
    requires w.version == Intended && Ready(p) && FlagFree(bs)
    ensures RunLine(w, p, bs) == p
    decreases |bs|
  {
    if bs != [] {
      assert bs == [bs[0]] + bs[1..];
      LineByte(w, p, bs[0], bs[1..]);
      LineNoise(w, p, bs[1..]);
    }
  }

  /** No byte of `bs` but possibly the last completes a frame. */
  predicate Quiet(w: Wire, p: Pump, bs: seq<byte>)
    decreases |bs|
  {
    bs == [] || (!p.awaitingCrc && Quiet(w, Step(w, p, [bs[0]]), bs[1..]))
  }

  /** The same count as ErrorCount on a line that delivers every byte it is asked for. */
  function LineErrorCount(w: Wire, line: seq<byte>): nat
    decreases |line|
  {
    if line == [] then 0
    else if line[0] != 0x7E then LineErrorCount(w, line[1..])
    else if |line| < 5 then 0
    else (if FlagChecksum(w, line[1..5]) then 1 else 0) + LineErrorCount(w, line[5..])
  }

  /**
   The loop as written on a byte stream: whenever it reads a flag it takes the next four bytes for a checksum,
   and hands on one error payload if they are the checksum of that flag, and nothing otherwise.
   */
  lemma {:induction false} AsWrittenLine(w: Wire, p: Pump, line: seq<byte>)
    requires w.version == AsWritten && Inert(p) && !p.awaitingCrc
    ensures RunLine(w, p, line).out == p.out + Errors(LineErrorCount(w, line))
    decreases |line|
  {
    if line == [] {
      assert p.out + [] == p.out;
    } else {
      var b, rest := line[0], line[1..];
      assert line == [b] + rest;
      LineByte(w, p, b, rest);
      var q := Step(w, p, [b]);
      if b != 0x7E {
        AsWrittenLine(w, q, rest);
      } else if |line| < 5 {
        assert rest != [] ==> rest[..|rest|] == rest && rest[|rest|..] == [];
        assert p.out + [] == p.out;
      } else {
        assert rest == line[1..5] + line[5..];
        LineCheck(w, q, line[1..5], line[5..]);
        FlagAloneIsEmpty();
        AsWrittenLine(w, Step(w, q, line[1..5]), line[5..]);
      }
    }
  }

  /** Such bytes are read one by one, wherever the line goes on. */
  lemma {:induction false} LineSingles(w: Wire, p: Pump, bs: seq<byte>, rest: seq<byte>)
    requires Quiet(w, p, bs)
    ensures RunLine(w, p, bs + rest) == RunLine(w, Run(w, p, Singles(bs)), rest)
    decreases |bs|
  {
    if bs == [] {
      assert bs + rest == rest;
      assert Singles(bs) == [];
    } else {
      var b, tail := bs[0], bs[1..];
      assert bs + rest == [b] + (tail + rest);
      LineByte(w, p, b, tail + rest);
      LineSingles(w, Step(w, p, [b]), tail, rest);
      assert Singles(bs) == [[b]] + Singles(tail);
      RunConcat(w, p, [[b]], Singles(tail));
      RunOne(w, p, [b]);
    }
  }

  lemma {:induction false} QuietInside(w: Wire, p: Pump, body: seq<byte>)
    requires w.version == Intended && !p.awaitingCrc && p.frame.inFrame
    requires FlagFree(body) && |p.frame.buf| + |body| <= w.max
    ensures Quiet(w, p, body + [FLAG])
    decreases |body|
  {
    var bs := body + [FLAG];
    if body == [] {
      assert bs[1..] == [];
    } else {
      assert bs[1..] == body[1..] + [FLAG];
      QuietInside(w, Step(w, p, [body[0]]), body[1..]);
    }
  }

  lemma FrameIsQuiet(w: Wire, p: Pump, d: seq<byte>)
    requires w.version == Intended && Ready(p) && |Escaped(d)| <= w.max
    ensures Quiet(w, p, Escaped(d))
  {
    StuffedIsCanonical(d);
    assert Escaped(d)[1..] == Stuffed(d) + [FLAG];
    QuietInside(w, Step(w, p, [FLAG]), Stuffed(d));
  }

  lemma FrameOnLine(w: Wire, p: Pump, d: seq<byte>, c: seq<byte>, rest: seq<byte>)
    requires w.version == Intended && Ready(p) && |Escaped(d)| <= w.max && |c| == 4
    ensures RunLine(w, p, Escaped(d) + (c + rest)) == RunLine(w, Run(w, p, ItemScript(Sent(d, c))), rest)
  {
    FrameIsQuiet(w, p, d);
    LineSingles(w, p, Escaped(d), c + rest);
    FittingFrame(w, p, d);
    var q := p.(frame := State(false, Escaped(d)), awaitingCrc := true);
    LineCheck(w, q, c, rest);
    RunConcat(w, p, Singles(Escaped(d)), [c]);
    RunOne(w, q, c);
  }

  lemma ItemOnLine(w: Wire, p: Pump, i: Item, rest: seq<byte>)
    requires w.version == Intended && Ready(p) && Fits(w, i) && FullCheck(i)
    ensures RunLine(w, p, ItemLine(i) + rest) == RunLine(w, Run(w, p, ItemScript(i)), rest)
  {
    match i
    case Silence =>
      assert ItemLine(i) + rest == rest;
      RunOne(w, p, []);
    case Noise(b) =>
      LineByte(w, p, b, rest);
      RunOne(w, p, [b]);
    case Sent(d, c) =>
      AppendAssociates(Escaped(d), c, rest);
      FrameOnLine(w, p, d, c, rest);
  }

  /** On a stream of bytes the loop itself finds where frames and checksums begin and end. */
  lemma {:induction false} LineIsScript(w: Wire, p: Pump, items: seq<Item>)
    requires w.version == Intended && Ready(p)
    requires forall k :: 0 <= k < |items| ==> Fits(w, items[k]) && FullCheck(items[k])
    ensures RunLine(w, p, LineOf(items)) == Run(w, p, ScriptOf(items))
    decreases |items|
  {
    if items != [] {
      var first, rest := ItemScript(items[0]), ScriptOf(items[1..]);
      ItemOnLine(w, p, items[0], LineOf(items[1..]));
      ItemDelivered(w, p, items[0]);
      LineIsScript(w, Run(w, p, first), items[1..]);
      RunConcat(w, p, first, rest);
    }
  }

  /** Reassembly of a byte stream, whatever bytes the checksums are made of. */
  lemma LineReassembly(w: Wire, p: Pump, items: seq<Item>)
    requires w.version == Intended && Ready(p)
    requires forall k :: 0 <= k < |items| ==> Fits(w, items[k]) && FullCheck(items[k])
    ensures Ready(RunLine(w, p, LineOf(items)))
    ensures RunLine(w, p, LineOf(items)).out == p.out + Accepted(w, items)
  {
    LineIsScript(w, p, items);
    Reassembly(w, p, items);
  }

  /** A timeout while the loop waits for a byte changes nothing, also in the middle of a frame. */
  lemma TimeoutsAreInvisible(w: Wire, p: Pump, a: Script, b: Script)
    requires w.version == Intended && !Run(w, p, a).awaitingCrc
    ensures Run(w, p, a + [[]] + b) == Run(w, p, a + b)
  {
    RunConcat(w, p, a + [[]], b);
    RunConcat(w, p, a, [[]]);
    RunOne(w, Run(w, p, a), []);
    RunConcat(w, p, a, b);
  }

  /** Corrected: a packet on its own is decoded exactly if four bytes follow whose little-endian value is its checksum. */
  lemma PacketDecodedExactly(w: Wire, p: Pump, d: seq<byte>, c: seq<byte>)
    requires w.version == Intended && Ready(p) && |Escaped(d)| <= w.max
    ensures Ready(Run(w, p, ItemScript(Sent(d, c))))
    ensures var value := if |c| == 4 then c[0] as int + 0x100 * c[1] as int + 0x1_0000 * c[2] as int +
                                          0x100_0000 * c[3] as int
                         else -1;
            Run(w, p, ItemScript(Sent(d, c))).out ==
            if value == w.crc(Escaped(d)) then p.out + [Decoded(w.pb, d)] else p.out
  {
    ItemDelivered(w, p, Sent(d, c));
    assert p.out + [] == p.out;
  }

  /** The item is payload `p`, encoded with `reserved` in its header and followed by its checksum. */
  predicate Carries(w: Wire, i: Item, p: Payload, reserved: seq<byte>) {
    && i.Sent? && |reserved| == 16
    && i.packet == Encoded(w.pb, p, reserved) && CrcMatches(w, i.check, Escaped(i.packet))
  }

  lemma {:induction false} PayloadsAccepted(w: Wire, items: seq<Item>, ps: seq<Payload>, rs: seq<seq<byte>>)
    requires |items| == |ps| == |rs| && w.pb.ParsesBack()
    requires forall k :: 0 <= k < |ps| ==> Carries(w, items[k], ps[k], rs[k])
    ensures Accepted(w, items) == ps
    decreases |items|
  {
    if items != [] {
      DecodeEncode(w.pb, ps[0], rs[0]);
      PayloadsAccepted(w, items[1..], ps[1..], rs[1..]);
    }
  }

  /**
   End to end: the payloads encoded by the sender come out of the loop, each once and in order, whether the
   line is given read by read or as one stream of bytes.
   */
  lemma PayloadsDelivered(w: Wire, p: Pump, items: seq<Item>, ps: seq<Payload>, rs: seq<seq<byte>>)
    requires w.version == Intended && Ready(p)
    requires |items| == |ps| == |rs| && w.pb.ParsesBack()
    requires forall k :: 0 <= k < |ps| ==> Fits(w, items[k]) && Carries(w, items[k], ps[k], rs[k])
    ensures Run(w, p, ScriptOf(items)).out == p.out + ps
    ensures RunLine(w, p, LineOf(items)).out == p.out + ps
  {
    PayloadsAccepted(w, items, ps, rs);
    Reassembly(w, p, items);
    LineReassembly(w, p, items);
  }
}
