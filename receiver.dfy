/** The step of the network receiver that stores one complete block: the
    telemetry header is dropped and the thermal payload is copied into the
    back slot of the double buffer. */
module Receiver {
  import opened FrameBuffer

  /** Length of the opaque telemetry header that leads every block. */
  const TELEMETRY_LENGTH: nat := 640

  /** Length of one block as read from the connection. */
  const BLOCK_BYTES: nat := 39040

  /** The part of a block after the telemetry header; it is exactly one
      frame long, so the copy into a slot never mismatches in length. */
  function Payload(block: seq<Byte>): (payload: seq<Byte>)
    requires |block| == BLOCK_BYTES
    ensures |payload| == FRAME_BYTES
    ensures block == block[..TELEMETRY_LENGTH] + payload
  {
    block[TELEMETRY_LENGTH..]
  }

  /** Lock the back slot and copy the payload of `block` into it. A poisoned
      lock makes the receiver panic before copying (`stored` is false);
      otherwise `back` becomes the payload. The front slot is never touched. */
  method StoreBlock(fb: DoubleBuffer, block: seq<Byte>) returns (stored: bool)
    requires fb.Valid() && |block| == BLOCK_BYTES
    modifies fb.back
    ensures stored == !fb.backPoisoned
    ensures fb.View() == WriteBack(old(fb.View()), Payload(block))
  {
    if fb.backPoisoned {
      return false;
    }
    var i := 0;
    while i < FRAME_BYTES
      invariant 0 <= i <= FRAME_BYTES
      invariant forall k :: 0 <= k < i ==> fb.back[k] == block[TELEMETRY_LENGTH + k]
    {
      fb.back[i] := block[TELEMETRY_LENGTH + i];
      i := i + 1;
    }
    assert fb.back[..] == Payload(block);
    stored := true;
  }

  /** A stored block followed by a swap puts exactly block bytes 640..39040
      in front and leaves the former front in back. */
  lemma StoredBlockReachesFront(s: Slots, block: seq<Byte>)
    requires !s.frontPoisoned && !s.backPoisoned && |block| == BLOCK_BYTES
    ensures |SwapSlots(WriteBack(s, Payload(block))).front| == FRAME_BYTES
    ensures forall k :: 0 <= k < FRAME_BYTES ==>
      SwapSlots(WriteBack(s, Payload(block))).front[k] == block[TELEMETRY_LENGTH + k]
    ensures SwapSlots(WriteBack(s, Payload(block))).back == s.front
  {
    WriteThenSwap(s, Payload(block));
  }
}
