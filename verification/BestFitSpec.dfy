/** The best-fit allocator of MemoryDealer.cpp on values: a heap is a sequence of blocks, measured
    in units of `kMemoryAlign` bytes. The linked list that implements it is in MemoryDealer.dfy. */
module BestFitSpec {

  datatype Block = Block(start: nat, size: nat, free: bool) {
    function End(): nat { start + size }
  }

  type Layout = seq<Block>

  const MEMORY_ALIGN: nat := 32
  const SIZE_MAX: nat := 0xFFFF_FFFF_FFFF_FFFF

  /** `size` rounded up to a multiple of `unit`; the addition is done on a 64-bit `size_t`. */
  function RoundUp(size: nat, unit: nat): nat
    requires unit > 0
  {
    var sum := (size + unit - 1) % (SIZE_MAX + 1);
    ProductIsNat(sum / unit, unit);
    sum / unit * unit
  }

  lemma ProductIsNat(a: nat, b: nat)
    ensures a * b >= 0
  {
  }

  // ----- the invariants -----

  /** The blocks cover [0, units) from left to right without a gap or an overlap. */
  ghost predicate Tiles(b: Layout, units: nat) {
    && |b| > 0
    && b[0].start == 0
    && (forall i, j {:trigger b[i], b[j]} :: 0 <= i && j == i + 1 && j < |b| ==> b[j].start == b[i].End())
    && b[|b| - 1].End() == units
  }

  /** No two neighbours are both free. */
  ghost predicate Coalesced(b: Layout) {
    forall i, j {:trigger b[i], b[j]} :: 0 <= i && j == i + 1 && j < |b| ==> !(b[i].free && b[j].free)
  }

  ghost predicate Positive(b: Layout) {
    forall i :: 0 <= i < |b| ==> b[i].size > 0
  }

  ghost predicate WellFormed(b: Layout, units: nat) {
    Tiles(b, units) && Coalesced(b) && Positive(b)
  }

  /** The allocated blocks, as (start, size) pairs. */
  ghost function Live(b: Layout): set<(nat, nat)> {
    set i | 0 <= i < |b| && !b[i].free :: (b[i].start, b[i].size)
  }

  // ----- allocation -----

  /** Units needed for a request; the addition is done on a 64-bit `size_t`. */
  function RoundedUnits(size: nat): nat {
    ((size + MEMORY_ALIGN - 1) % (SIZE_MAX + 1)) / MEMORY_ALIGN
  }

  /** Padding that brings `start` to a multiple of `align` units. */
  function Extra(start: nat, align: nat): nat
    requires align > 0
  {
    var negated: int := 0 - start;
    negated % align
  }

  predicate Fits(c: Block, units: nat, align: nat)
    requires align > 0
  {
    c.free && c.size >= units + Extra(c.start, align)
  }

  /** Index of the smallest fitting block among the first n, the first of them on a tie; -1 if none fits. */
  function BestFit(b: Layout, n: nat, units: nat, align: nat): (k: int)
    requires n <= |b| && align > 0
    ensures -1 <= k < n
    ensures k >= 0 ==> Fits(b[k], units, align)
  {
    if n == 0 then -1
    else
      var k := BestFit(b, n - 1, units, align);
      if Fits(b[n - 1], units, align) && (k == -1 || b[n - 1].size < b[k].size) then n - 1 else k
  }

  /** Block k replaced by its padding, the allocated block and what is left behind it. */
  function Carve(c: Block, units: nat, align: nat): Layout
    requires align > 0 && Fits(c, units, align)
  {
    var extra := Extra(c.start, align);
    var rest := c.size - units - extra;
    (if extra > 0 then [Block(c.start, extra, true)] else [])
    + [Block(c.start + extra, units, false)]
    + (if rest > 0 then [Block(c.start + extra + units, rest, true)] else [])
  }

  function AllocAt(b: Layout, k: nat, units: nat, align: nat): Layout
    requires k < |b| && align > 0 && Fits(b[k], units, align)
  {
    b[..k] + Carve(b[k], units, align) + b[k + 1..]
  }

  // ----- release -----

  /** The first block at or after index i that starts at s; -1 if there is none. */
  function FindStart(b: Layout, s: nat, i: nat): (k: int)
    requires i <= |b|
    ensures k == -1 || i <= k < |b|
    ensures k >= 0 ==> b[k].start == s && forall j :: i <= j < k ==> b[j].start != s
    ensures k == -1 ==> forall j :: i <= j < |b| ==> b[j].start != s
    decreases |b| - i
  {
    if i == |b| then -1 else if b[i].start == s then i else FindStart(b, s, i + 1)
  }

  /** Block k absorbed by its left neighbour. */
  function Absorb(b: Layout, k: nat): (r: Layout)
    requires 0 < k < |b|
    ensures |r| == |b| - 1
  {
    b[..k - 1] + [b[k - 1].(size := b[k - 1].size + b[k].size)] + b[k + 1..]
  }

  /** The merging loop of `dealloc`, with the cursor on block k. */
  function MergeFrom(b: Layout, k: nat): Layout
    requires k < |b|
    decreases |b| - k
  {
    var merge := k > 0 && (b[k - 1].free || b[k].size == 0);
    var b' := if merge then Absorb(b, k) else b;
    var k' := if merge then k else k + 1;
    if k' < |b'| && b'[k'].free then MergeFrom(b', k') else b'
  }

  function DeallocAt(b: Layout, k: nat): Layout
    requires k < |b|
  {
    MergeFrom(b[k := b[k].(free := true)], k)
  }

  // ----- the two operations -----

  const NO_MEMORY: int := -12

  /** The heap after `alloc` and the byte offset it returns. */
  function Alloc(b: Layout, size: nat, align: nat): (Layout, int)
    requires align > 0
  {
    if size == 0 then (b, 0)
    else
      var units := RoundedUnits(size);
      var k := BestFit(b, |b|, units, align);
      if k == -1 then (b, NO_MEMORY)
      else (AllocAt(b, k, units, align), (b[k].start + Extra(b[k].start, align)) * MEMORY_ALIGN)
  }

  /** The heap after `dealloc`, and whether a block starts at that offset. */
  function Dealloc(b: Layout, offset: nat): (Layout, bool) {
    var k := FindStart(b, offset / MEMORY_ALIGN, 0);
    if k == -1 then (b, false) else (DeallocAt(b, k), true)
  }

  datatype Op = Allocate(size: nat, pageAligned: bool) | Deallocate(offset: nat)

  /** `page` is the page size in units. */
  function Align(pageAligned: bool, page: nat): nat {
    if pageAligned then page else 1
  }

  function Step(b: Layout, op: Op, page: nat): Layout
    requires page > 0
  {
    match op
    case Allocate(size, pageAligned) => Alloc(b, size, Align(pageAligned, page)).0
    case Deallocate(offset) => Dealloc(b, offset).0
  }

  function Run(b: Layout, ops: seq<Op>, page: nat): Layout
    requires page > 0
    decreases |ops|
  {
    if ops == [] then b else Run(Step(b, ops[0], page), ops[1..], page)
  }
}
