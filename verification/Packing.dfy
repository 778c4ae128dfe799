/**
 Conversion between byte frames and the 32-bit words of the protobuf message RadioFrame
 (grpc_service.cpp:14-30 and the identical serial_service.cpp:18-34).
 memcpy copies the machine representation of the words, which is little-endian here.
 */
module Packing {
  import opened Prelude

  /** A frame that the mesh layer can hand on: its size fits the 32-bit length field. */
  type Frame = f: seq<byte> | |f| < 0x1_0000_0000

  /** RadioFrame as a value. */
  datatype RadioFrame = RadioFrame(data: seq<uint32>, length: uint32)

  const EMPTY_FRAME := RadioFrame([], 0)

  function WordByte(w: uint32, k: nat): byte
    requires k < 4
  {
    if k == 0 then w % 0x100
    else if k == 1 then w / 0x100 % 0x100
    else if k == 2 then w / 0x1_0000 % 0x100
    else w / 0x100_0000
  }

  function Word(b0: byte, b1: byte, b2: byte, b3: byte): uint32 {
    b0 + 0x100 * b1 + 0x1_0000 * b2 + 0x100_0000 * b3
  }

  lemma WordOfBytes(w: uint32)
    ensures Word(WordByte(w, 0), WordByte(w, 1), WordByte(w, 2), WordByte(w, 3)) == w
  {
    var a := w / 0x100;
    var b := a / 0x100;
    assert w / 0x1_0000 == b && w / 0x100_0000 == b / 0x100;
  }

  lemma BytesOfWord(b0: byte, b1: byte, b2: byte, b3: byte, k: nat)
    requires k < 4
    ensures WordByte(Word(b0, b1, b2, b3), k) == [b0, b1, b2, b3][k]
  {
    var w := Word(b0, b1, b2, b3);
    var a := b1 + 0x100 * b2 + 0x1_0000 * b3;
    assert w == b0 + 0x100 * a;
    assert w / 0x100 == a;
    assert w / 0x1_0000 == b2 + 0x100 * b3;
  }

  /** The memory image of an array of words. */
  function Image(ws: seq<uint32>): (bs: seq<byte>)
    ensures |bs| == 4 * |ws|
  {
    seq(4 * |ws|, k requires 0 <= k < 4 * |ws| => WordByte(ws[k / 4], k % 4))
  }

  /** The words that a memory image holds. */
  function Words(bs: seq<byte>): (ws: seq<uint32>)
    requires |bs| % 4 == 0
    ensures |ws| == |bs| / 4
  {
    seq(|bs| / 4, i requires 0 <= i < |bs| / 4 =>
      Word(bs[4 * i], bs[4 * i + 1], bs[4 * i + 2], bs[4 * i + 3]))
  }

  lemma ImageOfWords(bs: seq<byte>)
    requires |bs| % 4 == 0
    ensures Image(Words(bs)) == bs
  {
    var ws := Words(bs);
    forall k | 0 <= k < |bs|
      ensures Image(ws)[k] == bs[k]
    {
      var i := k / 4;
      BytesOfWord(bs[4 * i], bs[4 * i + 1], bs[4 * i + 2], bs[4 * i + 3], k % 4);
    }
  }

  lemma WordsOfImage(ws: seq<uint32>)
    ensures Words(Image(ws)) == ws
  {
    forall i | 0 <= i < |ws|
      ensures Words(Image(ws))[i] == ws[i]
    {
      WordAt(ws, i);
    }
  }

  lemma WordFromBytes(bs: seq<byte>, i: nat, w: uint32)
    requires |bs| % 4 == 0 && i < |bs| / 4
    requires bs[4 * i] == WordByte(w, 0) && bs[4 * i + 1] == WordByte(w, 1)
    requires bs[4 * i + 2] == WordByte(w, 2) && bs[4 * i + 3] == WordByte(w, 3)
    ensures Words(bs)[i] == w
  {
    WordOfBytes(w);
  }

  lemma WordAt(ws: seq<uint32>, i: nat)
    requires i < |ws|
    ensures Words(Image(ws))[i] == ws[i]
  {
    ImageAt(ws, i, 0);
    ImageAt(ws, i, 1);
    ImageAt(ws, i, 2);
    ImageAt(ws, i, 3);
    WordFromBytes(Image(ws), i, ws[i]);
  }

  lemma ImageAt(ws: seq<uint32>, i: nat, j: nat)
    requires i < |ws| && j < 4
    ensures Image(ws)[4 * i + j] == WordByte(ws[i], j)
  {
    assert (4 * i + j) / 4 == i && (4 * i + j) % 4 == j;
  }

  function WordCount(n: nat): nat {
    (n + 3) / 4
  }

  /** The words of a message that held `before` once the bytes `s` have been unpacked into it. */
  function Unpacked(before: seq<uint32>, s: seq<byte>): (ws: seq<uint32>)
    ensures |ws| == WordCount(|s|)
  {
    Words(Memcpy(Image(Resize(before, WordCount(|s|), 0)), s))
  }

  /** The bytes that a client reads back from a message. */
  function Packed(m: RadioFrame): seq<byte> {
    Resize(Image(m.data), m.length, 0)
  }

  function UnpackedFrame(before: RadioFrame, s: seq<byte>): RadioFrame {
    RadioFrame(Unpacked(before.data, s), |s| % 0x1_0000_0000)
  }

  /** A protobuf RadioFrame that a handler owns and fills again and again. */
  class Message {
    var data: seq<uint32>
    var length: uint32

    constructor ()
      ensures Value() == EMPTY_FRAME
    {
      data, length := [], 0;
    }

    function Value(): RadioFrame
      reads this
    {
      RadioFrame(data, length)
    }
  }

  // ----- What the bytes and words are -----

  lemma UnpackedImage(before: seq<uint32>, s: seq<byte>)
    ensures Image(Unpacked(before, s)) == Memcpy(Image(Resize(before, WordCount(|s|), 0)), s)
  {
    ImageOfWords(Memcpy(Image(Resize(before, WordCount(|s|), 0)), s));
  }

  lemma ImageOfResized(before: seq<uint32>, n: nat, k: nat)
    requires k < 4 * n
    ensures Image(Resize(before, n, 0))[k] == if k < 4 * |before| then Image(before)[k] else 0
  {
    var r := Resize(before, n, 0);
    var i, j := k / 4, k % 4;
    assert Image(r)[k] == WordByte(r[i], j);
    assert WordByte(0, j) == 0;
    assert k < 4 * |before| ==> Image(before)[k] == WordByte(before[i], j);
  }

  /** The pad bytes of the last word are the ones the message held before, or zero where it had no such word. */
  lemma PadBytesAreStale(before: seq<uint32>, s: seq<byte>, k: nat)
    requires |s| <= k < 4 * WordCount(|s|)
    ensures Image(Unpacked(before, s))[k] == if k < 4 * |before| then Image(before)[k] else 0
  {
    UnpackedImage(before, s);
    ImageOfResized(before, WordCount(|s|), k);
  }

  /** Byte `k` of what a client reads: the words least significant byte first, then zeros. */
  lemma PackedByte(m: RadioFrame, k: nat)
    requires k < m.length
    ensures |Packed(m)| == m.length
    ensures k >= 4 * |m.data| ==> Packed(m)[k] == 0
    ensures k < 4 * |m.data| ==>
              var w := m.data[k / 4];
              && (k % 4 == 0 ==> Packed(m)[k] == w % 0x100)
              && (k % 4 == 1 ==> Packed(m)[k] == w / 0x100 % 0x100)
              && (k % 4 == 2 ==> Packed(m)[k] == w / 0x1_0000 % 0x100)
              && (k % 4 == 3 ==> Packed(m)[k] == w / 0x100_0000)
  {
  }

  /** The word that a message holds at `i`, zero behind its end. */
  function WordOrZero(ws: seq<uint32>, i: nat): uint32 {
    if i < |ws| then ws[i] else 0
  }

  /** A word that is filled from the frame alone. */
  lemma UnpackedWord(before: seq<uint32>, s: seq<byte>, i: nat)
    requires 4 * i + 3 < |s|
    ensures i < |Unpacked(before, s)|
    ensures var k := 4 * i;
            Unpacked(before, s)[i] ==
            s[k] as int + 0x100 * s[k + 1] as int + 0x1_0000 * s[k + 2] as int + 0x100_0000 * s[k + 3] as int
  {
  }

  lemma HighBytes(w: uint32)
    ensures 0x100 * WordByte(w, 1) as int + 0x1_0000 * WordByte(w, 2) as int + 0x100_0000 * WordByte(w, 3) as int
            == w / 0x100 * 0x100
    ensures 0x1_0000 * WordByte(w, 2) as int + 0x100_0000 * WordByte(w, 3) as int == w / 0x1_0000 * 0x1_0000
    ensures 0x100_0000 * WordByte(w, 3) as int == w / 0x100_0000 * 0x100_0000
  {
    var a := w / 0x100;
    var b := a / 0x100;
    assert w / 0x1_0000 == b && w / 0x100_0000 == b / 0x100;
  }

  /** Byte `k` of what BufUnpack puts into the words. */
  lemma MemoryAt(before: seq<uint32>, s: seq<byte>, n: nat, i: nat, j: nat)
    requires |s| <= 4 * n && i < n && j < 4
    ensures Memcpy(Image(Resize(before, n, 0)), s)[4 * i + j] ==
            if 4 * i + j < |s| then s[4 * i + j] else WordByte(WordOrZero(before, i), j)
  {
    ImageAt(Resize(before, n, 0), i, j);
  }

  lemma UnpackedAt(before: seq<uint32>, s: seq<byte>, i: nat) returns (m: seq<byte>)
    requires i < WordCount(|s|)
    ensures m == Memcpy(Image(Resize(before, WordCount(|s|), 0)), s) && |m| >= 4 * i + 4
    ensures Unpacked(before, s)[i] == Word(m[4 * i], m[4 * i + 1], m[4 * i + 2], m[4 * i + 3])
  {
    m := Memcpy(Image(Resize(before, WordCount(|s|), 0)), s);
  }

  /** The last word byte by byte: the first `m` from the frame, the others as they were. */
  lemma LastWordBytes(before: seq<uint32>, s: seq<byte>, i: nat, m: nat)
    requires |s| == 4 * i + m && 0 < m < 4
    ensures |Unpacked(before, s)| == i + 1
    ensures var k, w := 4 * i, WordOrZero(before, i);
            Unpacked(before, s)[i] ==
            Word(s[k],
                 if 1 < m then s[k + 1] else WordByte(w, 1),
                 if 2 < m then s[k + 2] else WordByte(w, 2),
                 WordByte(w, 3))
  {
    assert WordCount(|s|) == i + 1;
    var memory := UnpackedAt(before, s, i);
    assert memory[4 * i] == s[4 * i] by {
      MemoryAt(before, s, i + 1, i, 0);
    }
    assert memory[4 * i + 1] == if 1 < m then s[4 * i + 1] else WordByte(WordOrZero(before, i), 1) by {
      MemoryAt(before, s, i + 1, i, 1);
    }
    assert memory[4 * i + 2] == if 2 < m then s[4 * i + 2] else WordByte(WordOrZero(before, i), 2) by {
      MemoryAt(before, s, i + 1, i, 2);
    }
    assert memory[4 * i + 3] == WordByte(WordOrZero(before, i), 3) by {
      MemoryAt(before, s, i + 1, i, 3);
    }
  }

  /** The last word of a frame that ends inside it: the high bytes stay what they were. */
  lemma UnpackedLastWord(before: seq<uint32>, s: seq<byte>)
    requires |s| % 4 != 0
    ensures |Unpacked(before, s)| == |s| / 4 + 1
    ensures var k, w, x := |s| / 4 * 4, WordOrZero(before, |s| / 4), Unpacked(before, s)[|s| / 4];
            && (|s| % 4 == 1 ==> x == s[k] as int + w / 0x100 * 0x100)
            && (|s| % 4 == 2 ==> x == s[k] as int + 0x100 * s[k + 1] as int + w / 0x1_0000 * 0x1_0000)
            && (|s| % 4 == 3 ==>
                  x == s[k] as int + 0x100 * s[k + 1] as int + 0x1_0000 * s[k + 2] as int + w / 0x100_0000 * 0x100_0000)
  {
    LastWordBytes(before, s, |s| / 4, |s| % 4);
    HighBytes(WordOrZero(before, |s| / 4));
  }

  /** grpc_buf_pack, buf_pack */
  method BufPack(src: RadioFrame, dst: Buffer)
    modifies dst
    ensures dst.data == Packed(src)
    ensures |dst.data| == src.length
    ensures forall k :: 0 <= k < |dst.data| ==>
                          dst.data[k] ==
                          if k >= 4 * |src.data| then 0
                          else if k % 4 == 0 then src.data[k / 4] % 0x100
                          else if k % 4 == 1 then src.data[k / 4] / 0x100 % 0x100
                          else if k % 4 == 2 then src.data[k / 4] / 0x1_0000 % 0x100
                          else src.data[k / 4] / 0x100_0000
  {
    dst.data := Resize(dst.data, 4 * |src.data|, 0);
    dst.data := Memcpy(dst.data, Image(src.data));
    assert dst.data == Image(src.data);
    dst.data := Resize(dst.data, src.length, 0);
    forall k | 0 <= k < |dst.data|
      ensures k >= 4 * |src.data| ==> dst.data[k] == 0
      ensures k < 4 * |src.data| ==> dst.data[k] == Packed(src)[k]
    {
      PackedByte(src, k);
    }
  }

  /**
   grpc_buf_unpack, buf_unpack: full words come from the frame, least significant byte first; a frame that ends
   inside its last word leaves the high bytes of that word as they were.
   */
  method BufUnpack(src: seq<byte>, dst: Message)
    modifies dst
    ensures dst.Value() == UnpackedFrame(old(dst.Value()), src)
    ensures dst.length == |src| % 0x1_0000_0000 && |dst.data| == (|src| + 3) / 4
    ensures forall i :: 0 <= i < |src| / 4 ==>
                          var k := 4 * i;
                          dst.data[i] ==
                          src[k] as int + 0x100 * src[k + 1] as int + 0x1_0000 * src[k + 2] as int +
                          0x100_0000 * src[k + 3] as int
    ensures |src| % 4 != 0 ==>
              var k, w, x := |src| / 4 * 4, WordOrZero(old(dst.data), |src| / 4), dst.data[|src| / 4];
              && (|src| % 4 == 1 ==> x == src[k] as int + w / 0x100 * 0x100)
              && (|src| % 4 == 2 ==> x == src[k] as int + 0x100 * src[k + 1] as int + w / 0x1_0000 * 0x1_0000)
              && (|src| % 4 == 3 ==>
                    x ==
                    src[k] as int + 0x100 * src[k + 1] as int + 0x1_0000 * src[k + 2] as int +
                    w / 0x100_0000 * 0x100_0000)
  {
    ghost var before := dst.data;
    var dstSize := |src| / 4;
    dstSize := dstSize + if |src| - dstSize * 4 != 0 then 1 else 0;
    assert dstSize == WordCount(|src|);
    dst.data := Resize(dst.data, dstSize, 0);
    dst.data := Words(Memcpy(Image(dst.data), src));
    dst.length := |src| % 0x1_0000_0000;
    assert dst.data == Unpacked(before, src);
    forall i | 0 <= i < |src| / 4
      ensures var k := 4 * i;
              dst.data[i] ==
              src[k] as int + 0x100 * src[k + 1] as int + 0x1_0000 * src[k + 2] as int + 0x100_0000 * src[k + 3] as int
    {
      UnpackedWord(before, src, i);
    }
    if |src| % 4 != 0 {
      UnpackedLastWord(before, src);
    }
  }

  // ----- Properties -----

  /** The old contents show in the words exactly when the pad bytes differ. */
  lemma UnpackedDependsOnPadOnly(b1: seq<uint32>, b2: seq<uint32>, s: seq<byte>)
    ensures Unpacked(b1, s) == Unpacked(b2, s) <==>
            forall k :: |s| <= k < 4 * WordCount(|s|) ==>
                          (if k < 4 * |b1| then Image(b1)[k] else 0) == (if k < 4 * |b2| then Image(b2)[k] else 0)
  {
    var w1, w2 := Unpacked(b1, s), Unpacked(b2, s);
    UnpackedImage(b1, s);
    UnpackedImage(b2, s);
    forall k | |s| <= k < 4 * WordCount(|s|)
      ensures Image(w1)[k] == (if k < 4 * |b1| then Image(b1)[k] else 0)
      ensures Image(w2)[k] == (if k < 4 * |b2| then Image(b2)[k] else 0)
    {
      PadBytesAreStale(b1, s, k);
      PadBytesAreStale(b2, s, k);
    }
    WordsOfImage(w1);
    WordsOfImage(w2);
    if Image(w1) != Image(w2) {
      assert exists k :: 0 <= k < 4 * WordCount(|s|) && Image(w1)[k] != Image(w2)[k];
      var k :| 0 <= k < 4 * WordCount(|s|) && Image(w1)[k] != Image(w2)[k];
      assert k >= |s|;
    }
  }

  /** The client reads back exactly the bytes sent, whatever the reused message held, unless the length wraps. */
  lemma PackUnpack(before: RadioFrame, s: seq<byte>)
    ensures Packed(UnpackedFrame(before, s)) == s <==> |s| < 0x1_0000_0000
    ensures |s| <= 4 * |UnpackedFrame(before, s).data| < |s| + 4
  {
    UnpackedImage(before.data, s);
    if |s| < 0x1_0000_0000 {
      var m := UnpackedFrame(before, s);
      assert m.length == |s|;
      assert Packed(m) == s;
    } else {
      assert |Packed(UnpackedFrame(before, s))| < 0x1_0000_0000;
    }
  }

  /** Forwarding a received message through unpack and pack changes nothing, even if its length and words disagree. */
  lemma PackUnpackPack(m: RadioFrame, before: RadioFrame)
    ensures Packed(UnpackedFrame(before, Packed(m))) == Packed(m)
  {
    PackUnpack(before, Packed(m));
  }
}
