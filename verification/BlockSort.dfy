/**
  dep/bzip2/blocksort.c, BZ2_blockSort (lines 1031-1089).
*/
module BlockSort {
  import opened Common
  import opened Rotation
  import opened Bitmap
  import opened MainCompare
  import opened MainBudget
  import opened MainRadix
  import FallbackSort
  import MainSort

  /** The search for the place of rotation 0. */
  method FindOrigPtr(ptr: array<int>, ghost b: seq<Byte>) returns (origPtr: int)
    requires SortedRotations(b, ptr[..]) && b != []
    ensures 0 <= origPtr < ptr.Length && ptr[origPtr] == 0
  {
    ghost var at := PermHits(ptr[..], 0);
    origPtr := -1;
    for i := 0 to ptr.Length
      invariant i <= at
    {
      if ptr[i] == 0 { return i; }
    }
  }

  /** The fallback sort on the whole block, which it uses as working storage and restores. */
  method Fallback(ptr: array<int>, block: array<Byte>)
    requires 0 < ptr.Length == block.Length <= 900000
    modifies ptr, block
    ensures block[..] == old(block[..]) && SortedRotations(block[..], ptr[..])
  {
    hide SortedRotations;
    var eclass := new int[ptr.Length];
    var bhtab := new Word[ptr.Length / 32 + 3];
    FallbackSort.Sort(ptr, eclass, block, bhtab, ptr.Length);
  }

  /**
    The main sort; when its budget is used up, ptr is of no use. It is not while thirteen times the
    price of the block stays within the budget, so never on a block whose rotations differ early.
  */
  method ByMainSort(ptr: array<int>, block: array<Byte>, workFactor: int) returns (budget: int)
    requires N_OVERSHOOT < ptr.Length == block.Length <= 900000
    modifies ptr
    ensures budget >= 0 ==> SortedRotations(block[..], ptr[..])
    ensures 13 * Repeats(block[..]) <= block.Length * ((Max(1, Min(workFactor, 100)) - 1) / 3) ==> budget >= 0
    ensures (exists h: nat :: h <= 20 && Apart(block[..], h)) ==> budget >= 0
  {
    hide SortedRotations, Repeats, Apart;
    var nblock := block.Length;
    var wide := new int[nblock + N_OVERSHOOT];
    var quadrant := new int[nblock + N_OVERSHOOT];
    var ftab := new int[RADIX + 1];
    for i := 0 to nblock
      modifies wide
      invariant forall k :: 0 <= k < i ==> wide[k] == block[k]
    {
      wide[i] := block[i];
    }
    var wfact := workFactor;
    if wfact < 1 { wfact := 1; }
    if wfact > 100 { wfact := 100; }
    budget := MainSort.Sort(ptr, wide, quadrant, ftab, nblock, Budget(nblock, wfact), block[..]);
  }

  /** budgetInit. */
  function Budget(nblock: nat, wfact: int): (r: nat)
    requires 1 <= wfact <= 100
    ensures r <= 33 * nblock
  {
    BudgetRange(nblock, (wfact - 1) / 3);
    nblock * ((wfact - 1) / 3)
  }

  lemma BudgetRange(nblock: nat, f: nat)
    requires f <= 33
    ensures 0 <= nblock * f <= 33 * nblock
  {
  }

  /**
    BZ2_blockSort: the block is unchanged, ptr lists its rotations in order, origPtr is the place
    of rotation 0; so for short blocks, for long ones, and for long ones too repetitive for the
    main sort.
  */
  method Sort(block: array<Byte>, workFactor: int) returns (ptr: array<int>, origPtr: int)
    requires 0 < block.Length <= 900000
    modifies block
    ensures block[..] == old(block[..]) && fresh(ptr) && ptr.Length == block.Length
    ensures SortedRotations(block[..], ptr[..])
    ensures 0 <= origPtr < ptr.Length && ptr[origPtr] == 0
  {
    hide SortedRotations;
    ptr := new int[block.Length];
    if block.Length < 10000 {
      Fallback(ptr, block);
    } else {
      var budget := ByMainSort(ptr, block, workFactor);
      if budget < 0 { Fallback(ptr, block); }
    }
    origPtr := FindOrigPtr(ptr, block[..]);
  }
}
