/**
 Octet stuffing (kaonic/src/comm/serial/hdlc.cpp), the scheme of section 4.2 of RFC 1662:
 a frame is delimited by 0x7E, and 0x7E and 0x7D inside it are sent as 0x7D followed by the
 byte XOR 0x20.
 */
module Hdlc {
  import opened Prelude

  const FLAG: byte := 0x7E
  const ESC: byte := 0x7D
  const ESC_MASK: bv8 := 0x20

  // The byte sent after ESC for a flag and for an ESC; see CodesAreMasked.
  const FLAG_CODE: byte := 0x5E
  const ESC_CODE: byte := 0x5D

  lemma CodesAreMasked()
    ensures FLAG_CODE == ((0x7E as bv8) ^ ESC_MASK) as int
    ensures ESC_CODE == ((0x7D as bv8) ^ ESC_MASK) as int
  {
    assert (0x7E as bv8) ^ 0x20 == 0x5E;
    assert (0x7D as bv8) ^ 0x20 == 0x5D;
  }

  predicate Special(b: byte) {
    b == FLAG || b == ESC
  }

  predicate FlagFree(s: seq<byte>) {
    forall k :: 0 <= k < |s| ==> s[k] != FLAG
  }

  // ----- Encoding -----

  function StuffByte(b: byte): seq<byte> {
    if b == ESC then [ESC, ESC_CODE] else if b == FLAG then [ESC, FLAG_CODE] else [b]
  }

  function Stuffed(d: seq<byte>): seq<byte> {
    if d == [] then [] else StuffByte(d[0]) + Stuffed(d[1..])
  }

  function Escaped(d: seq<byte>): seq<byte> {
    [FLAG] + Stuffed(d) + [FLAG]
  }

  function Specials(d: seq<byte>): nat {
    if d == [] then 0 else (if Special(d[0]) then 1 else 0) + Specials(d[1..])
  }

  lemma {:induction false} StuffedConcat(a: seq<byte>, b: seq<byte>)
    ensures Stuffed(a + b) == Stuffed(a) + Stuffed(b)
  {
    if a == [] {
      assert a + b == b;
    } else {
      StuffedConcat(a[1..], b);
      assert (a + b)[1..] == a[1..] + b;
      AppendAssociates(StuffByte(a[0]), Stuffed(a[1..]), Stuffed(b));
    }
  }

  lemma StuffedNext(d: seq<byte>, i: nat)
    requires i < |d|
    ensures [FLAG] + Stuffed(d[..i + 1]) == [FLAG] + Stuffed(d[..i]) + StuffByte(d[i])
  {
    assert d[..i + 1] == d[..i] + [d[i]];
    StuffedConcat(d[..i], [d[i]]);
    assert Stuffed([d[i]]) == StuffByte(d[i]) + Stuffed([]);
  }

  /** hdlc::escape */
  method Escape(data: seq<byte>) returns (output: seq<byte>)
    ensures output == Escaped(data)
  {
    output := [FLAG];
    for i := 0 to |data|
      invariant output == [FLAG] + Stuffed(data[..i])
    {
      StuffedNext(data, i);
      var b := data[i];
      ghost var before := output;
      if b == ESC {
        output := output + [ESC];
        output := output + [ESC_CODE];
      } else if b == FLAG {
        output := output + [ESC];
        output := output + [FLAG_CODE];
      } else {
        output := output + [b];
      }
      assert output == before + StuffByte(b);
    }
    assert data[..|data|] == data;
    output := output + [FLAG];
  }

  // ----- Decoding -----

  datatype Phase = Seeking | Plain | Escaping | Closed
  datatype Decoder = Decoder(phase: Phase, out: seq<byte>)

  const START := Decoder(Seeking, [])

  /** The byte that a body byte stands for when an ESC precedes it. */
  function Restored(b: byte): byte {
    if b == FLAG_CODE then FLAG else if b == ESC_CODE then ESC else b
  }

  function Feed(s: Decoder, b: byte): Decoder {
    match s.phase
    case Closed => s
    case Seeking => if b == FLAG then s.(phase := Plain) else s
    case _ =>
      if b == FLAG then s.(phase := Closed)
      else if b == ESC then s.(phase := Escaping)
      else Decoder(Plain, s.out + [if s.phase == Escaping then Restored(b) else b])
  }

  function FeedAll(s: Decoder, w: seq<byte>): Decoder
    decreases |w|
  {
    if w == [] then s else FeedAll(Feed(s, w[0]), w[1..])
  }

  function Unescaped(w: seq<byte>): seq<byte> {
    FeedAll(START, w).out
  }

  lemma {:induction false} FeedAllConcat(s: Decoder, a: seq<byte>, b: seq<byte>)
    ensures FeedAll(s, a + b) == FeedAll(FeedAll(s, a), b)
    decreases |a|
  {
    if a == [] {
      assert a + b == b;
    } else {
      FeedAllConcat(Feed(s, a[0]), a[1..], b);
      assert (a + b)[1..] == a[1..] + b;
    }
  }

  lemma {:induction false} FeedAllStays(s: Decoder, w: seq<byte>)
    requires s.phase == Closed || (s.phase == Seeking && FlagFree(w))
    ensures FeedAll(s, w) == s
    decreases |w|
  {
    if w != [] {
      FeedAllStays(s, w[1..]);
    }
  }

  /** hdlc::unescape */
  method Unescape(data: seq<byte>) returns (output: seq<byte>)
    ensures output == Unescaped(data)
  {
    var inFrame := false;
    var escape := false;
    output := [];
    for i := 0 to |data|
      invariant !inFrame ==> !escape
      invariant FeedAll(START, data[..i]) ==
                Decoder(if !inFrame then Seeking else if escape then Escaping else Plain, output)
    {
      var b := data[i];
      assert data[..i + 1] == data[..i] + [b];
      FeedAllConcat(START, data[..i], [b]);
      if inFrame && b == FLAG {
        assert data == data[..i + 1] + data[i + 1..];
        FeedAllConcat(START, data[..i + 1], data[i + 1..]);
        FeedAllStays(FeedAll(START, data[..i + 1]), data[i + 1..]);
        return;
      } else if b == FLAG {
        inFrame := true;
      } else if inFrame {
        if b == ESC {
          escape := true;
        } else {
          if escape {
            if b == FLAG_CODE {
              b := FLAG;
            }
            if b == ESC_CODE {
              b := ESC;
            }
            escape := false;
          }
          output := output + [b];
        }
      }
    }
    assert data[..|data|] == data;
  }

  // ----- Inverse theory -----

  lemma FeedOne(s: Decoder, b: byte)
    ensures FeedAll(s, [b]) == Feed(s, b)
  {
    assert FeedAll(Feed(s, b), []) == Feed(s, b);
  }

  lemma FeedStuffByte(s: Decoder, b: byte)
    requires s.phase == Plain
    ensures FeedAll(s, StuffByte(b)) == Decoder(Plain, s.out + [b])
  {
    if Special(b) {
      var code := if b == ESC then ESC_CODE else FLAG_CODE;
      assert StuffByte(b) == [ESC] + [code];
      FeedAllConcat(s, [ESC], [code]);
      FeedOne(s, ESC);
      FeedOne(Feed(s, ESC), code);
    } else {
      FeedOne(s, b);
    }
  }

  lemma {:induction false} FeedStuffed(s: Decoder, d: seq<byte>)
    requires s.phase == Plain
    ensures FeedAll(s, Stuffed(d)) == Decoder(Plain, s.out + d)
    decreases |d|
  {
    if d != [] {
      var s' := Decoder(Plain, s.out + [d[0]]);
      var e := StuffByte(d[0]);
      FeedStuffByte(s, d[0]);
      FeedAllConcat(s, e, Stuffed(d[1..]));
      FeedStuffed(s', d[1..]);
      assert s.out + d == s'.out + d[1..];
    }
  }

  /** Decoding inverts encoding whatever surrounds the frame: flag-free noise before, anything after. */
  lemma UnescapeEscape(p: seq<byte>, d: seq<byte>, s: seq<byte>)
    requires FlagFree(p)
    ensures Unescaped(p + Escaped(d) + s) == d
  {
    var w := p + Escaped(d) + s;
    FeedAllStays(START, p);
    var body := Stuffed(d);
    assert w == p + ([FLAG] + (body + ([FLAG] + s)));
    FeedAllConcat(START, p, [FLAG] + (body + ([FLAG] + s)));
    FeedAllConcat(START, [FLAG], body + ([FLAG] + s));
    var s1 := Decoder(Plain, []);
    assert FeedAll(START, [FLAG]) == s1;
    FeedAllConcat(s1, body, [FLAG] + s);
    FeedStuffed(s1, d);
    var s2 := Decoder(Plain, d);
    assert s1.out + d == d;
    FeedAllConcat(s2, [FLAG], s);
    assert FeedAll(s2, [FLAG]) == Decoder(Closed, d);
    FeedAllStays(Decoder(Closed, d), s);
  }

  lemma RoundTrip(d: seq<byte>)
    ensures Unescaped(Escaped(d)) == d
  {
    UnescapeEscape([], d, []);
    assert [] + Escaped(d) + [] == Escaped(d);
  }

  /** No encoded frame is a proper prefix of another, and equal frames carry equal data. */
  lemma EscapePrefixFree(d: seq<byte>, s: seq<byte>, e: seq<byte>, t: seq<byte>)
    requires Escaped(d) + s == Escaped(e) + t
    ensures d == e && s == t
  {
    UnescapeEscape([], d, s);
    UnescapeEscape([], e, t);
    assert [] + Escaped(d) + s == Escaped(d) + s;
    assert [] + Escaped(e) + t == Escaped(e) + t;
    assert s == (Escaped(d) + s)[|Escaped(d)|..];
    assert t == (Escaped(e) + t)[|Escaped(e)|..];
  }

  // ----- What any byte string decodes to -----

  /** The first position at or after `from` that holds a flag, or the end of `w`. */
  function NextFlag(w: seq<byte>, from: nat): (i: nat)
    requires from <= |w|
    ensures from <= i <= |w|
    ensures FlagFree(w[from..i])
    ensures i < |w| ==> w[i] == FLAG
    decreases |w| - from
  {
    if from == |w| || w[from] == FLAG then from else NextFlag(w, from + 1)
  }

  /** The bytes between the first two flags of `w`; up to the end when there is one flag only. */
  function Body(w: seq<byte>): (b: seq<byte>)
    ensures FlagFree(b)
  {
    var i := NextFlag(w, 0);
    if i == |w| then [] else w[i + 1..NextFlag(w, i + 1)]
  }

  /**
   Stateless reading of a body: every 0x7D is dropped, and right after one 0x5E stands for 0x7E and 0x5D for
   0x7D, while any other byte stands for itself.
   */
  function Meaning(b: seq<byte>): seq<byte> {
    if b == [] then []
    else
      var n := |b| - 1;
      var escaped := n > 0 && b[n - 1] == 0x7D;
      Meaning(b[..n]) +
      if b[n] == 0x7D then []
      else if escaped && b[n] == 0x5E then [0x7E]
      else if escaped && b[n] == 0x5D then [0x7D]
      else [b[n]]
  }

  lemma {:induction false} FeedBody(b: seq<byte>)
    requires FlagFree(b)
    ensures FeedAll(Decoder(Plain, []), b) ==
            Decoder(if b != [] && b[|b| - 1] == ESC then Escaping else Plain, Meaning(b))
    decreases |b|
  {
    if b != [] {
      var n := |b| - 1;
      FeedBody(b[..n]);
      assert b == b[..n] + [b[n]];
      FeedAllConcat(Decoder(Plain, []), b[..n], [b[n]]);
    }
  }

  lemma FeedFrame(p: seq<byte>, b: seq<byte>, rest: seq<byte>)
    requires FlagFree(p) && FlagFree(b)
    requires rest == [] || rest[0] == FLAG
    ensures Unescaped(p + ([FLAG] + (b + rest))) == Meaning(b)
  {
    var s1 := Decoder(Plain, []);
    FeedAllConcat(START, p, [FLAG] + (b + rest));
    FeedAllStays(START, p);
    FeedAllConcat(START, [FLAG], b + rest);
    assert FeedAll(START, [FLAG]) == s1;
    FeedAllConcat(s1, b, rest);
    FeedBody(b);
    if rest != [] {
      FeedAllStays(Feed(FeedAll(s1, b), FLAG), rest[1..]);
    }
  }

  /** Total description of the decoder: only the first flag-delimited body matters. */
  lemma UnescapedIsMeaning(w: seq<byte>)
    ensures Unescaped(w) == Meaning(Body(w))
  {
    var i := NextFlag(w, 0);
    assert w[0..i] == w[..i];
    if i == |w| {
      assert w[..i] == w;
      FeedAllStays(START, w);
    } else {
      var j := NextFlag(w, i + 1);
      assert w == w[..i] + ([FLAG] + (w[i + 1..j] + w[j..]));
      FeedFrame(w[..i], w[i + 1..j], w[j..]);
    }
  }

  // ----- Exact image of the encoder -----

  predicate CanonicalBody(b: seq<byte>) {
    && FlagFree(b)
    && forall k :: 0 <= k < |b| && b[k] == 0x7D ==> k + 1 < |b| && b[k + 1] in [0x5D, 0x5E]
  }

  predicate Canonical(w: seq<byte>) {
    && |w| >= 2
    && w[0] == 0x7E && w[|w| - 1] == 0x7E
    && CanonicalBody(w[1..|w| - 1])
  }

  lemma {:induction false} StuffedIsCanonical(d: seq<byte>)
    ensures CanonicalBody(Stuffed(d))
    decreases |d|
  {
    if d != [] {
      StuffedIsCanonical(d[1..]);
      var e, r := StuffByte(d[0]), Stuffed(d[1..]);
      forall k | 0 <= k < |e + r| && (e + r)[k] == ESC
        ensures k + 1 < |e + r| && (e + r)[k + 1] in [ESC_CODE, FLAG_CODE]
      {
        if k >= |e| {
          assert (e + r)[k] == r[k - |e|];
          assert (e + r)[k + 1] == r[k - |e| + 1];
        }
      }
    }
  }

  lemma {:induction false} CanonicalIsStuffed(b: seq<byte>) returns (d: seq<byte>)
    requires CanonicalBody(b)
    ensures Stuffed(d) == b
    decreases |b|
  {
    if b == [] {
      d := [];
    } else {
      var n := if b[0] == ESC then 2 else 1;
      assert b[0] == ESC ==> b[1] in [ESC_CODE, FLAG_CODE];
      assert CanonicalBody(b[n..]) by {
        forall k | 0 <= k < |b[n..]| && b[n..][k] == ESC
          ensures k + 1 < |b[n..]| && b[n..][k + 1] in [ESC_CODE, FLAG_CODE]
        {
          assert b[n + k] == ESC;
        }
      }
      var rest := CanonicalIsStuffed(b[n..]);
      var head := if b[0] == ESC then Restored(b[1]) else b[0];
      d := [head] + rest;
      assert d[1..] == rest;
      assert b == StuffByte(head) + b[n..];
    }
  }

  /** Re-encoding a decoded string gives it back exactly on the canonical frames. */
  lemma EscapeUnescape(w: seq<byte>)
    ensures Escaped(Unescaped(w)) == w <==> Canonical(w)
  {
    if Escaped(Unescaped(w)) == w {
      var d := Unescaped(w);
      StuffedIsCanonical(d);
      assert w[1..|w| - 1] == Stuffed(d);
    }
    if Canonical(w) {
      var d := CanonicalIsStuffed(w[1..|w| - 1]);
      assert w == Escaped(d);
      RoundTrip(d);
    }
  }

  // ----- Size -----

  lemma {:induction false} EscapedSize(d: seq<byte>)
    ensures |Escaped(d)| == |d| + 2 + Specials(d)
    ensures Specials(d) <= |d|
    decreases |d|
  {
    if d != [] {
      EscapedSize(d[1..]);
    }
  }

  lemma {:induction false} AllSpecial(n: nat) returns (d: seq<byte>)
    ensures |d| == n && |Escaped(d)| == 2 * n + 2
  {
    if n == 0 {
      d := [];
    } else {
      var r := AllSpecial(n - 1);
      d := [FLAG] + r;
      assert d[1..] == r;
    }
  }

  /** 5119 bytes is the largest packet size that always fits the deframer's limit (serial_service.cpp:16). */
  lemma SafePacketSize(n: nat)
    ensures (forall d :: |d| <= n ==> |Escaped(d)| <= 10240) <==> n <= 5119
  {
    forall d | |d| <= n && n <= 5119
      ensures |Escaped(d)| <= 10240
    {
      EscapedSize(d);
    }
    if n > 5119 {
      var d := AllSpecial(5120);
    }
  }
}
