/** hdlc_processor, the streaming deframer (kaonic/src/comm/serial/hdlc.cpp:55-81). */
module Deframer {
  import opened Prelude
  import opened Hdlc

  /** `_in_frame` together with the caller's buffer. */
  datatype State = State(inFrame: bool, buf: seq<byte>)

  datatype Outcome = Outcome(next: State, complete: bool)

  /**
   The code as written, and the evident intent: the flag that opens a frame should not also close it.
   The intended version stores the opening flag and returns false; everything else is unchanged.
   */
  datatype Version = AsWritten | Intended

  function Updated(v: Version, max: nat, s: State, b: byte): Outcome {
    if s.inFrame && |s.buf| + 1 > max then Outcome(State(false, []), false)
    else if !s.inFrame && b == FLAG then
      if v == AsWritten then Outcome(State(false, [FLAG]), true) else Outcome(State(true, [FLAG]), false)
    else if !s.inFrame then Outcome(s, false)
    else if b == FLAG then Outcome(State(false, s.buf + [FLAG]), true)
    else Outcome(State(true, s.buf + [b]), false)
  }

  class HdlcProcessor {
    const maxHdlcSize: nat
    var inFrame: bool

    constructor (maxHdlcSize: nat)
      ensures !inFrame && this.maxHdlcSize == maxHdlcSize
    {
      this.maxHdlcSize := maxHdlcSize;
      inFrame := false;
    }

    function Current(output: Buffer): State
      reads this, output
    {
      State(inFrame, output.data)
    }

    /**
     hdlc_processor::update. Outside a frame a flag is a complete frame by itself and any other byte is ignored;
     inside one every byte is stored and a flag completes, unless the buffer is full.
     */
    method Update(element: byte, output: Buffer) returns (complete: bool)
      modifies this, output
      ensures Outcome(Current(output), complete) == Updated(AsWritten, maxHdlcSize, old(Current(output)), element)
      ensures !old(inFrame) ==>
                && (complete <==> element == 0x7E) && !inFrame
                && output.data == if element == 0x7E then [0x7E] else old(output.data)
      ensures old(inFrame) && |old(output.data)| < maxHdlcSize ==>
                && (complete <==> element == 0x7E) && inFrame == !complete
                && output.data == old(output.data) + [element]
      ensures old(inFrame) && |old(output.data)| >= maxHdlcSize ==> !complete && !inFrame && output.data == []
    {
      if inFrame && |output.data| + 1 > maxHdlcSize {
        inFrame := false;
        output.data := [];
        return false;
      }
      if !inFrame && element == FLAG {
        output.data := [];
        inFrame := true;
      }
      if inFrame && element == FLAG {
        output.data := output.data + [FLAG];
        inFrame := false;
        return true;
      }
      if inFrame {
        output.data := output.data + [element];
      }
      return false;
    }

    /** The correction: a flag outside a frame only opens it. */
    method UpdateIntended(element: byte, output: Buffer) returns (complete: bool)
      modifies this, output
      ensures Outcome(Current(output), complete) == Updated(Intended, maxHdlcSize, old(Current(output)), element)
      ensures !old(inFrame) ==>
                && !complete && (inFrame <==> element == 0x7E)
                && output.data == if element == 0x7E then [0x7E] else old(output.data)
      ensures old(inFrame) && |old(output.data)| < maxHdlcSize ==>
                && (complete <==> element == 0x7E) && inFrame == !complete
                && output.data == old(output.data) + [element]
      ensures old(inFrame) && |old(output.data)| >= maxHdlcSize ==> !complete && !inFrame && output.data == []
    {
      if inFrame && |output.data| + 1 > maxHdlcSize {
        inFrame := false;
        output.data := [];
        return false;
      }
      if !inFrame && element == FLAG {
        output.data := [FLAG];
        inFrame := true;
        return false;
      }
      if inFrame && element == FLAG {
        output.data := output.data + [FLAG];
        inFrame := false;
        return true;
      }
      if inFrame {
        output.data := output.data + [element];
      }
      return false;
    }
  }
}
