/** The double-buffered frame store shared by the network receiver (which
    writes the back slot) and the renderer (which swaps, then reads the front
    slot).

    Each slot sits behind its own mutex. Sequentially, `Mutex::lock` only
    fails when the mutex is poisoned (a thread panicked while holding it), so
    each slot's lock is modelled by one flag saying whether it is poisoned. */
module FrameBuffer {

  /** An unsigned 8-bit value. */
  type Byte = x: int | 0 <= x < 0x100

  /** Size in bytes of one slot (`Frame`): 160 * 120 samples of two bytes. */
  const FRAME_BYTES: nat := 38400

  /** An all-zero slot, as the shared buffer starts out. */
  function Zeros(): (z: seq<Byte>)
    ensures |z| == FRAME_BYTES
  {
    seq(FRAME_BYTES, _ => 0)
  }

  /** The value of a double buffer: both slots and both lock states. */
  datatype Slots = Slots(front: seq<Byte>, back: seq<Byte>, frontPoisoned: bool, backPoisoned: bool)

  /** What `swap` does: the contents are exchanged when both locks are
      obtained, and nothing happens otherwise. */
  function SwapSlots(s: Slots): Slots
  {
    if !s.frontPoisoned && !s.backPoisoned then s.(front := s.back, back := s.front) else s
  }

  /** What a writer of the back slot does: with the lock obtained the slot
      becomes `payload`; on a poisoned lock the writer panics before
      touching anything. */
  function WriteBack(s: Slots, payload: seq<Byte>): Slots
  {
    if s.backPoisoned then s else s.(back := payload)
  }

  /** Swapping twice with no write in between restores both slots, whether or
      not the locks could be obtained. */
  lemma SwapTwiceRestores(s: Slots)
    ensures SwapSlots(SwapSlots(s)) == s
  {
  }

  /** A swap never alters the lock states, and when it is skipped the slots
      are untouched. */
  lemma SwapSkippedOnPoison(s: Slots)
    ensures SwapSlots(s).frontPoisoned == s.frontPoisoned
    ensures SwapSlots(s).backPoisoned == s.backPoisoned
    ensures s.frontPoisoned || s.backPoisoned ==> SwapSlots(s) == s
  {
  }

  /** A write followed by a swap puts exactly the written bytes in front,
      and the former front becomes the back. */
  lemma WriteThenSwap(s: Slots, payload: seq<Byte>)
    requires !s.frontPoisoned && !s.backPoisoned
    ensures SwapSlots(WriteBack(s, payload)).front == payload
    ensures SwapSlots(WriteBack(s, payload)).back == s.front
  {
  }

  /** The fronts a consumer reads when every write of `frames` is followed by
      one swap and one read of the front slot. */
  function Observed(s: Slots, frames: seq<seq<Byte>>): (obs: seq<seq<Byte>>)
    ensures |obs| == |frames|
    decreases |frames|
  {
    if frames == [] then []
    else
      var t := SwapSlots(WriteBack(s, frames[0]));
      [t.front] + Observed(t, frames[1..])
  }

  /** Frame integrity: with healthy locks, the read after swap i returns
      exactly the bytes of write i, never a mix of two writes. */
  lemma {:induction false} FrameIntegrity(s: Slots, frames: seq<seq<Byte>>)
    requires !s.frontPoisoned && !s.backPoisoned
    ensures forall i :: 0 <= i < |frames| ==> Observed(s, frames)[i] == frames[i]
    decreases |frames|
  {
    if frames != [] {
      var t := SwapSlots(WriteBack(s, frames[0]));
      FrameIntegrity(t, frames[1..]);
      forall i | 0 <= i < |frames|
        ensures Observed(s, frames)[i] == frames[i]
      {
        if i > 0 {
          assert Observed(s, frames)[i] == Observed(t, frames[1..])[i - 1];
        }
      }
    }
  }

  /** Two frame-sized slots, `front` and `back`, each guarded by its own lock. */
  class DoubleBuffer {
    const front: array<Byte>
    const back: array<Byte>
    var frontPoisoned: bool
    var backPoisoned: bool

    ghost predicate Valid()
      reads this
    {
      front.Length == FRAME_BYTES && back.Length == FRAME_BYTES && front != back
    }

    /** The value this buffer currently holds. */
    ghost function View(): Slots
      reads this, front, back
    {
      Slots(front[..], back[..], frontPoisoned, backPoisoned)
    }

    /** The shared buffer as initialised: two zeroed slots, fresh locks. */
    constructor ()
      ensures Valid() && fresh(front) && fresh(back)
      ensures View() == Slots(Zeros(), Zeros(), false, false)
    {
      front := new Byte[FRAME_BYTES](_ => 0);
      back := new Byte[FRAME_BYTES](_ => 0);
      frontPoisoned, backPoisoned := false, false;
      new;
      assert front[..] == Zeros();
      assert back[..] == Zeros();
    }

    /** `swap`: lock front, then back, then exchange the two slots' bytes in
        place; if either lock fails, do nothing. */
    method Swap()
      requires Valid()
      modifies front, back
      ensures View() == SwapSlots(old(View()))
    {
      if !frontPoisoned {
        if !backPoisoned {
          var i := 0;
          while i < FRAME_BYTES
            invariant 0 <= i <= FRAME_BYTES
            invariant forall k :: 0 <= k < i ==> front[k] == old(back[k]) && back[k] == old(front[k])
            invariant forall k :: i <= k < FRAME_BYTES ==> front[k] == old(front[k]) && back[k] == old(back[k])
          {
            front[i], back[i] := back[i], front[i];
            i := i + 1;
          }
          assert front[..] == old(back[..]);
          assert back[..] == old(front[..]);
        }
      }
    }
  }
}
