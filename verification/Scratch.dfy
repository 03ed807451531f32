/** The stack-like scratch space of the multi-scalar algorithms. */
module Scratch {

  const ALIGNMENT: nat := 16
  const MAX_FRAMES: nat := 5

  function RoundToAlign(size: nat): (r: nat)
    ensures size <= r < size + ALIGNMENT
  {
    (size + ALIGNMENT - 1) / ALIGNMENT * ALIGNMENT
  }

  /** The least multiple of the alignment that is not below the size. */
  lemma RoundedUp(size: nat, r: nat)
    ensures RoundToAlign(size) == r <==> r % ALIGNMENT == 0 && size <= r < size + ALIGNMENT
  {
  }

  function Sum(xs: seq<nat>): nat {
    if |xs| == 0 then 0 else Sum(xs[..|xs| - 1]) + xs[|xs| - 1]
  }

  class ScratchSpace {
    const maxSize: nat
    var frameSizes: seq<nat>
    var offsets: seq<nat>

    // Every frame is used within its size.
    ghost predicate Framed()
      reads this
    {
      && |frameSizes| == |offsets| <= MAX_FRAMES
      && forall i :: 0 <= i < |offsets| ==> offsets[i] <= frameSizes[i]
    }

    ghost predicate Valid()
      reads this
    {
      Framed() && Sum(frameSizes) <= maxSize
    }

    constructor (maxSize: nat)
      ensures Valid() && this.maxSize == maxSize && frameSizes == []
    {
      this.maxSize := maxSize;
      frameSizes, offsets := [], [];
    }

    /** secp256k1_scratch_max_allocation */
    function MaxAllocation(objects: nat): nat
      requires Valid()
      reads this
    {
      var left := maxSize - Sum(frameSizes);
      if left <= objects * ALIGNMENT then 0 else left - objects * ALIGNMENT
    }

    /** secp256k1_scratch_allocate_frame: succeeds exactly when n bytes plus alignment slack are left.
        An empty request succeeds without room for the slack, which takes the frames beyond the size of the space. */
    method AllocateFrame(n: nat, objects: nat) returns (ok: bool)
      requires Valid() && |frameSizes| < MAX_FRAMES
      modifies this
      ensures ok <==> n <= old(MaxAllocation(objects))
      ensures ok <==> n == 0 || Sum(old(frameSizes)) + n + objects * ALIGNMENT <= maxSize
      ensures ok ==> frameSizes == old(frameSizes) + [n + objects * ALIGNMENT] && offsets == old(offsets) + [0]
      ensures !ok ==> frameSizes == old(frameSizes) && offsets == old(offsets)
      ensures Framed()
      ensures Valid() <==> !ok || n > 0 || objects * ALIGNMENT <= maxSize - Sum(old(frameSizes))
    {
      ok := n <= MaxAllocation(objects);
      if ok {
        ghost var before := frameSizes;
        frameSizes, offsets := frameSizes + [n + objects * ALIGNMENT], offsets + [0];
        assert frameSizes[..|frameSizes| - 1] == before;
      }
    }

    /** secp256k1_scratch_deallocate_frame */
    method DeallocateFrame()
      requires Framed() && |frameSizes| > 0
      modifies this
      ensures Framed() && frameSizes == old(frameSizes)[..|old(frameSizes)| - 1]
      ensures offsets == old(offsets)[..|old(offsets)| - 1]
    {
      frameSizes, offsets := frameSizes[..|frameSizes| - 1], offsets[..|offsets| - 1];
    }

    /** secp256k1_scratch_alloc: false stands for the null pointer. */
    method Alloc(size: nat) returns (ok: bool)
      requires Framed()
      modifies this
      ensures Framed() && frameSizes == old(frameSizes)
      ensures ok <==>
        |frameSizes| > 0 && RoundToAlign(size) + old(offsets)[|frameSizes| - 1] <= frameSizes[|frameSizes| - 1]
      ensures ok ==> offsets == old(offsets)[|frameSizes| - 1 := old(offsets)[|frameSizes| - 1] + RoundToAlign(size)]
      ensures !ok ==> offsets == old(offsets)
    {
      var rounded := RoundToAlign(size);
      var frame := |frameSizes| - 1;
      if |frameSizes| == 0 || rounded + offsets[frame] > frameSizes[frame] {
        return false;
      }
      offsets := offsets[frame := offsets[frame] + rounded];
      return true;
    }
  }
}
