/** What the best-fit allocator promises, proved on layouts. */
module BestFitProofs {
  import opened BestFitSpec

  // ----- order -----

  lemma {:induction false} Ordered(b: Layout, units: nat, i: nat, j: nat)
    requires Tiles(b, units) && i < j < |b|
    ensures b[i].End() <= b[j].start
    ensures b[j].End() <= units
    decreases j - i, |b| - j
  {
    if j + 1 < |b| { Ordered(b, units, j, j + 1); }
    if i + 1 < j { Ordered(b, units, i, j - 1); }
  }

  lemma {:induction false} WithinHeap(b: Layout, units: nat, i: nat)
    requires Tiles(b, units) && i < |b|
    ensures b[i].End() <= units
  {
    if i + 1 < |b| { Ordered(b, units, i, i + 1); }
  }

  /** With positive sizes a start names one block. */
  lemma {:induction false} StartsDistinct(b: Layout, units: nat, i: nat, j: nat)
    requires Tiles(b, units) && Positive(b) && i < |b| && j < |b| && b[i].start == b[j].start
    ensures i == j
  {
    if i < j { Ordered(b, units, i, j); } else if j < i { Ordered(b, units, j, i); }
  }

  // ----- alignment -----

  lemma {:induction false} ExtraAligns(start: nat, align: nat)
    requires align > 0
    ensures 0 <= Extra(start, align) < align
    ensures (start + Extra(start, align)) % align == 0
  {
    var negated: int := 0 - start;
    var q := negated / align;
    assert start + Extra(start, align) == align * (-q);
    MultipleMod(-q, align);
  }

  lemma {:induction false} SmallMultiple(q: int, align: nat)
    requires align > 0
    ensures -(align as int) < align * q < align ==> q == 0
  {
    if q >= 1 { assert align * q >= align * 1; }
    if q <= -1 { assert align * q <= align * -1; }
  }

  lemma {:induction false} MultipleMod(q: int, align: nat)
    requires align > 0
    ensures (align * q) % align == 0
  {
    var x := align * q;
    var d := x / align;
    assert align * (q - d) == x % align;
    SmallMultiple(q - d, align);
  }

  /** The padding is the least one: no aligned position lies between `start` and the padded start. */
  lemma {:induction false} ExtraIsLeast(start: nat, align: nat, s: nat)
    requires align > 0 && start <= s && s % align == 0
    ensures start + Extra(start, align) <= s
  {
    ExtraAligns(start, align);
    var t := start + Extra(start, align);
    assert s == align * (s / align) && t == align * (t / align);
    assert t - s == align * (t / align - s / align);
    SmallMultiple(t / align - s / align, align);
  }

  // ----- live blocks -----

  lemma {:induction false} LiveConcat(b: Layout, c: Layout)
    ensures Live(b + c) == Live(b) + Live(c)
  {
    forall i | 0 <= i < |b| && !b[i].free ensures (b[i].start, b[i].size) in Live(b + c) {
      assert (b + c)[i] == b[i];
    }
    forall i | 0 <= i < |c| && !c[i].free ensures (c[i].start, c[i].size) in Live(b + c) {
      assert (b + c)[|b| + i] == c[i];
    }
  }

  lemma {:induction false} LiveOne(c: Block)
    ensures Live([c]) == if c.free then {} else {(c.start, c.size)}
  {
    if !c.free { assert [c][0] == c && (c.start, c.size) in Live([c]); }
  }

  lemma {:induction false} LiveSplit(b: Layout, k: nat)
    requires k < |b|
    ensures Live(b) == Live(b[..k]) + Live([b[k]]) + Live(b[k + 1..])
  {
    assert b == b[..k] + ([b[k]] + b[k + 1..]);
    LiveConcat(b[..k], [b[k]] + b[k + 1..]);
    LiveConcat([b[k]], b[k + 1..]);
  }

  lemma {:induction false} LiveCarve(c: Block, want: nat, align: nat)
    requires align > 0 && Fits(c, want, align)
    ensures Live(Carve(c, want, align)) == {(c.start + Extra(c.start, align), want)}
  {
    var extra := Extra(c.start, align);
    var rest := c.size - want - extra;
    var pad := if extra > 0 then [Block(c.start, extra, true)] else [];
    var block := Block(c.start + extra, want, false);
    var tail := if rest > 0 then [Block(c.start + extra + want, rest, true)] else [];
    LiveConcat(pad + [block], tail);
    LiveConcat(pad, [block]);
    LiveOne(block);
  }

  /** A live block of the heap overlaps no other block. */
  lemma {:induction false} LiveAvoids(b: Layout, units: nat, k: nat, x: (nat, nat))
    requires Tiles(b, units) && k < |b| && x in Live(b)
    ensures x == (b[k].start, b[k].size) || x.0 + x.1 <= b[k].start || b[k].End() <= x.0
  {
    var j :| 0 <= j < |b| && !b[j].free && x == (b[j].start, b[j].size);
    if j < k { Ordered(b, units, j, k); } else if k < j { Ordered(b, units, k, j); }
  }

  // ----- allocation -----

  /** The search finds the smallest block that fits, the first one on a tie, and misses none. */
  lemma {:induction false} BestFitIsLeast(b: Layout, n: nat, want: nat, align: nat)
    requires n <= |b| && align > 0
    ensures var k := BestFit(b, n, want, align);
            && (k == -1 <==> forall i :: 0 <= i < n ==> !Fits(b[i], want, align))
            && forall i :: 0 <= i < n && Fits(b[i], want, align) ==> b[k].size <= b[i].size && (i < k ==> b[k].size < b[i].size)
  {
    if n > 0 { BestFitIsLeast(b, n - 1, want, align); }
  }

  /** A fit of exactly the wanted size cannot be beaten, so a search may stop there. */
  lemma {:induction false} ExactIsBest(b: Layout, i: nat, want: nat, align: nat)
    requires i < |b| && align > 0 && Fits(b[i], want, align) && b[i].size == want
    ensures BestFit(b, |b|, want, align) == BestFit(b, i + 1, want, align)
  {
    BestFitIsLeast(b, |b|, want, align);
    BestFitIsLeast(b, i + 1, want, align);
    var whole := BestFit(b, |b|, want, align);
    var part := BestFit(b, i + 1, want, align);
    assert Fits(b[whole], want, align) && b[whole].size <= want;
    assert Fits(b[part], want, align) && b[part].size <= want;
  }

  lemma {:induction false} AllocKeepsTiles(b: Layout, units: nat, k: nat, want: nat, align: nat)
    requires Tiles(b, units) && k < |b| && align > 0 && Fits(b[k], want, align)
    ensures Tiles(AllocAt(b, k, want, align), units)
  {
    var c := Carve(b[k], want, align);
    var r := AllocAt(b, k, want, align);
    forall i, j {:trigger r[i], r[j]} | 0 <= i && j == i + 1 && j < |r| ensures r[j].start == r[i].End() {
      if i >= k + |c| {
        assert r[i] == b[i - |c| + 1];
      }
    }
    if k + 1 < |b| { assert r[|r| - 1] == b[|b| - 1]; }
  }

  lemma {:induction false} CarvedTiles(b: Layout, units: nat, k: nat, want: nat, align: nat, r: Layout)
    requires Tiles(b, units) && k < |b| && align > 0 && Fits(b[k], want, align) && r == AllocAt(b, k, want, align)
    ensures Tiles(r, units)
  {
    AllocKeepsTiles(b, units, k, want, align);
  }

  lemma {:induction false} AllocKeepsCoalesced(b: Layout, units: nat, k: nat, want: nat, align: nat)
    requires Tiles(b, units) && Coalesced(b) && k < |b| && align > 0 && Fits(b[k], want, align)
    ensures Coalesced(AllocAt(b, k, want, align))
  {
    var c := Carve(b[k], want, align);
    var r := AllocAt(b, k, want, align);
    forall i, j {:trigger r[i], r[j]} | 0 <= i && j == i + 1 && j < |r| ensures !(r[i].free && r[j].free) {
      if i >= k + |c| {
        assert r[i] == b[i - |c| + 1];
      }
    }
  }

  lemma {:induction false} AllocKeepsPositive(b: Layout, k: nat, want: nat, align: nat)
    requires Positive(b) && k < |b| && align > 0 && Fits(b[k], want, align) && want > 0
    ensures Positive(AllocAt(b, k, want, align))
  {
  }

  /** An allocation keeps the heap well formed and adds exactly one live block, at the padded start. */
  lemma {:induction false} AllocAddsOne(b: Layout, units: nat, k: nat, want: nat, align: nat)
    requires WellFormed(b, units) && k < |b| && align > 0 && Fits(b[k], want, align) && want > 0
    ensures WellFormed(AllocAt(b, k, want, align), units)
    ensures var block := (b[k].start + Extra(b[k].start, align), want);
            block !in Live(b) && Live(AllocAt(b, k, want, align)) == Live(b) + {block}
  {
    AllocKeepsTiles(b, units, k, want, align);
    AllocKeepsCoalesced(b, units, k, want, align);
    AllocKeepsPositive(b, k, want, align);
    var block := (b[k].start + Extra(b[k].start, align), want);
    if block in Live(b) {
      var j :| 0 <= j < |b| && !b[j].free && block == (b[j].start, b[j].size);
      if j < k { Ordered(b, units, j, k); } else { Ordered(b, units, k, j); }
    }
    LiveAlloc(b, k, want, align);
  }

  lemma {:induction false} LiveAlloc(b: Layout, k: nat, want: nat, align: nat)
    requires k < |b| && align > 0 && Fits(b[k], want, align)
    ensures Live(AllocAt(b, k, want, align)) == Live(b) + {(b[k].start + Extra(b[k].start, align), want)}
  {
    LiveCarve(b[k], want, align);
    LiveConcat(b[..k] + Carve(b[k], want, align), b[k + 1..]);
    LiveConcat(b[..k], Carve(b[k], want, align));
    LiveSplit(b, k);
    LiveOne(b[k]);
  }

  // ----- release -----

  lemma {:induction false} AbsorbKeepsTiles(b: Layout, units: nat, k: nat)
    requires Tiles(b, units) && 0 < k < |b|
    ensures Tiles(Absorb(b, k), units)
  {
    var r := Absorb(b, k);
    assert b[k].start == b[k - 1].End();
    forall i, j {:trigger r[i], r[j]} | 0 <= i && j == i + 1 && j < |r| ensures r[j].start == r[i].End() {
      if i == k { assert r[i] == b[i + 1]; }
      else if i > k { assert r[i] == b[i + 1] && r[i - 1] == b[i]; }
    }
    if k + 1 < |b| { assert r[|r| - 1] == b[|b| - 1]; }
  }

  lemma {:induction false} MergeKeepsTiles(b: Layout, units: nat, k: nat)
    requires Tiles(b, units) && k < |b|
    ensures Tiles(MergeFrom(b, k), units)
    decreases |b| - k
  {
    var merge := k > 0 && (b[k - 1].free || b[k].size == 0);
    if merge { AbsorbKeepsTiles(b, units, k); }
    var b' := if merge then Absorb(b, k) else b;
    var k' := if merge then k else k + 1;
    if k' < |b'| && b'[k'].free { MergeKeepsTiles(b', units, k'); }
  }

  lemma {:induction false} DeallocKeepsTiles(b: Layout, units: nat, k: nat)
    requires Tiles(b, units) && k < |b|
    ensures Tiles(DeallocAt(b, k), units)
  {
    MergeKeepsTiles(b[k := b[k].(free := true)], units, k);
  }

  /** Block k joined with a free neighbour on either side. */
  ghost function Join(b: Layout, k: nat): Layout
    requires k < |b|
  {
    var left := k > 0 && b[k - 1].free;
    var right := k + 1 < |b| && b[k + 1].free;
    var start := if left then b[k - 1].start else b[k].start;
    var size := (if left then b[k - 1].size else 0) + b[k].size + (if right then b[k + 1].size else 0);
    b[..if left then k - 1 else k] + [Block(start, size, true)] + b[if right then k + 2 else k + 1..]
  }

  lemma {:induction false} MergeRight(b: Layout, k: nat)
    requires 0 < k < |b| && b[k - 1].free && (k + 1 < |b| ==> !b[k + 1].free)
    ensures MergeFrom(b, k) == Absorb(b, k)
  {
    if k + 1 < |b| { assert Absorb(b, k)[k] == b[k + 1]; }
  }

  lemma {:induction false} MergeNothing(b: Layout, k: nat)
    requires 0 < k < |b| && b[k].size > 0 && !b[k - 1].free && (k + 1 < |b| ==> !b[k + 1].free)
    ensures MergeFrom(b, k) == b
  {
  }

  /** The loop absorbs a block and goes on with the next, */
  lemma {:induction false} MergeOn(b: Layout, k: nat)
    requires 0 < k && k + 1 < |b| && b[k - 1].free && b[k + 1].free
    ensures MergeFrom(b, k) == MergeFrom(Absorb(b, k), k)
  {
    assert Absorb(b, k)[k] == b[k + 1];
  }

  /** or it only goes on. */
  lemma {:induction false} MergePast(b: Layout, k: nat)
    requires k + 1 < |b| && (k > 0 ==> !b[k - 1].free && b[k].size > 0) && b[k + 1].free
    ensures MergeFrom(b, k) == MergeFrom(b, k + 1)
  {
  }

  /** On a well-formed heap the merging loop does exactly this: it joins the released block with a free
      left neighbour and with a free right neighbour. */
  lemma {:induction false} DeallocIsJoin(b: Layout, units: nat, k: nat)
    requires WellFormed(b, units) && k < |b| && !b[k].free
    ensures DeallocAt(b, k) == Join(b, k)
  {
    hide MergeFrom, Absorb, Join, WellFormed;
    var f := b[k := b[k].(free := true)];
    var left := k > 0 && b[k - 1].free;
    var right := k + 1 < |b| && b[k + 1].free;
    Surroundings(b, units, k);
    Joined(b, f, k);
    if left && right {
      var g := Absorb(f, k);
      MergeOn(f, k);
      Absorbed(f, k);
      MergeRight(g, k);
    } else if left {
      MergeRight(f, k);
    } else if right {
      MergePast(f, k);
      MergeRight(f, k + 1);
    } else if k > 0 {
      MergeNothing(f, k);
    } else {
      MergeFirst(f);
    }
  }

  lemma MergeFirst(b: Layout)
    requires b != [] && (1 < |b| ==> !b[1].free)
    ensures MergeFrom(b, 0) == b
  {
  }

  /** What a well-formed heap has around a block: its own size, its start, and no two free blocks in a row. */
  lemma {:induction false} Surroundings(b: Layout, units: nat, k: nat)
    requires WellFormed(b, units) && k < |b|
    ensures b[k].size > 0 && (k > 0 ==> b[k].start == b[k - 1].End())
    ensures k + 2 < |b| ==> !(b[k + 1].free && b[k + 2].free)
  {
  }

  lemma {:induction false} Absorbed(b: Layout, k: nat)
    requires 0 < k < |b|
    ensures Absorb(b, k)[k - 1].free == b[k - 1].free
    ensures forall i :: k <= i < |b| - 1 ==> Absorb(b, k)[i] == b[i + 1]
  {
  }

  /** The join, put together from absorptions. */
  lemma {:induction false} Joined(b: Layout, f: Layout, k: nat)
    requires k < |b| && f == b[k := b[k].(free := true)] && (k > 0 ==> b[k].start == b[k - 1].End())
    ensures var left := k > 0 && b[k - 1].free;
      var right := k + 1 < |b| && b[k + 1].free;
      Join(b, k) ==
        if left && right then Absorb(Absorb(f, k), k)
        else if left then Absorb(f, k)
        else if right then Absorb(f, k + 1)
        else f
  {
    var left := k > 0 && b[k - 1].free;
    var right := k + 1 < |b| && b[k + 1].free;
    if left && right {
      var g := Absorb(f, k);
      assert g[..k - 1] == b[..k - 1] && g[k + 1..] == b[k + 2..];
    } else if left {
      assert f[..k - 1] == b[..k - 1] && f[k + 1..] == b[k + 1..];
    } else if right {
      assert f[..k] == b[..k] && f[k + 2..] == b[k + 2..];
    } else {
      assert Join(b, k) == f;
    }
  }

  lemma {:induction false} LiveJoin(b: Layout, k: nat)
    requires k < |b|
    ensures Live(Join(b, k)) == Live(b[..k]) + Live(b[k + 1..])
  {
    var left := k > 0 && b[k - 1].free;
    var right := k + 1 < |b| && b[k + 1].free;
    var lo := if left then k - 1 else k;
    var hi := if right then k + 2 else k + 1;
    var mid := Join(b, k)[lo];
    assert Join(b, k) == b[..lo] + [mid] + b[hi..];
    LiveConcat(b[..lo] + [mid], b[hi..]);
    LiveConcat(b[..lo], [mid]);
    LiveOne(mid);
    if left {
      LiveSplit(b[..k], k - 1);
      assert b[..k][..k - 1] == b[..k - 1] && b[..k][k..] == [];
      LiveOne(b[k - 1]);
    }
    if right {
      LiveSplit(b[k + 1..], 0);
      assert b[k + 1..][1..] == b[k + 2..] && b[k + 1..][..0] == [];
      LiveOne(b[k + 1]);
    }
  }

  lemma {:induction false} JoinKeepsShape(b: Layout, units: nat, k: nat)
    requires WellFormed(b, units) && k < |b| && !b[k].free
    ensures Coalesced(Join(b, k)) && Positive(Join(b, k))
  {
    var r := Join(b, k);
    var left := k > 0 && b[k - 1].free;
    var lo := if left then k - 1 else k;
    var gone := |b| - |r|;
    forall i | 0 <= i < |r| && i != lo ensures r[i] == b[if i < lo then i else i + gone] {}
    if lo > 0 { assert !b[lo - 1].free; }
    if lo + 1 < |r| { assert !b[lo + 1 + gone].free; }
  }

  lemma {:induction false} OthersDiffer(b: Layout, units: nat, k: nat)
    requires Tiles(b, units) && Positive(b) && k < |b|
    ensures (b[k].start, b[k].size) !in Live(b[..k]) + Live(b[k + 1..])
  {
    forall i | 0 <= i < |b| && i != k ensures b[i].start != b[k].start {
      if b[i].start == b[k].start { StartsDistinct(b, units, i, k); }
    }
  }

  /** A release keeps the heap well formed and removes exactly the released block. */
  lemma {:induction false} DeallocRemovesOne(b: Layout, units: nat, k: nat)
    requires WellFormed(b, units) && k < |b| && !b[k].free
    ensures WellFormed(DeallocAt(b, k), units)
    ensures Live(DeallocAt(b, k)) == Live(b) - {(b[k].start, b[k].size)}
  {
    DeallocIsJoin(b, units, k);
    DeallocKeepsTiles(b, units, k);
    JoinKeepsShape(b, units, k);
    LiveJoin(b, k);
    LiveSplit(b, k);
    LiveOne(b[k]);
    OthersDiffer(b, units, k);
  }

  /** Releasing a block that is already free changes nothing. */
  lemma {:induction false} DoubleFreeIsNoOp(b: Layout, units: nat, k: nat)
    requires WellFormed(b, units) && k < |b| && b[k].free
    ensures DeallocAt(b, k) == b
  {
    assert b[k := b[k].(free := true)] == b;
    if k + 1 < |b| { assert !b[k + 1].free; }
  }

  // ----- canonical form -----

  lemma {:induction false} StartAfterPrefix(b: Layout, units: nat, i: nat)
    requires Tiles(b, units) && i < |b|
    ensures b[i].start == (if i == 0 then 0 else b[i - 1].End())
    ensures b[i].End() <= units
  {
    WithinHeap(b, units, i);
  }

  lemma {:induction false} SamePrefix(b: Layout, c: Layout, units: nat, i: nat)
    requires WellFormed(b, units) && WellFormed(c, units) && Live(b) == Live(c)
    requires i <= |b| && i <= |c| && b[..i] == c[..i]
    ensures b == c
    decreases |b| - i
  {
    if i > 0 { assert b[i - 1] == b[..i][i - 1] == c[i - 1]; }
    if i < |c| { StartAfterPrefix(c, units, i); }
    if i < |b| { StartAfterPrefix(b, units, i); }
    if i < |b| && i < |c| {
      SameBlock(b, c, units, i);
      assert b[..i + 1] == b[..i] + [b[i]] && c[..i + 1] == c[..i] + [c[i]];
      SamePrefix(b, c, units, i + 1);
    }
  }

  lemma {:induction false} SameBlock(b: Layout, c: Layout, units: nat, i: nat)
    requires WellFormed(b, units) && WellFormed(c, units) && Live(b) == Live(c)
    requires i < |b| && i < |c| && b[i].start == c[i].start
    ensures b[i] == c[i]
  {
    if !b[i].free { LiveBlockIsShared(b, c, units, i); }
    else if !c[i].free { LiveBlockIsShared(c, b, units, i); }
    else if b[i].size < c[i].size { NoShorterFree(b, c, units, i); }
    else if c[i].size < b[i].size { NoShorterFree(c, b, units, i); }
  }

  lemma {:induction false} LiveBlockIsShared(b: Layout, c: Layout, units: nat, i: nat)
    requires WellFormed(b, units) && WellFormed(c, units) && Live(b) == Live(c)
    requires i < |b| && i < |c| && b[i].start == c[i].start && !b[i].free
    ensures b[i] == c[i]
  {
    assert (b[i].start, b[i].size) in Live(c);
    var j :| 0 <= j < |c| && !c[j].free && (c[j].start, c[j].size) == (b[i].start, b[i].size);
    StartsDistinct(c, units, i, j);
  }

  /** A free block cannot end inside a free block of the other layout: what follows it is live. */
  lemma {:induction false} NoShorterFree(b: Layout, c: Layout, units: nat, i: nat)
    requires WellFormed(b, units) && WellFormed(c, units) && Live(b) == Live(c)
    requires i < |b| && i < |c| && b[i].start == c[i].start && b[i].free && c[i].free
    ensures b[i].size >= c[i].size
  {
    WithinHeap(c, units, i);
    if i + 1 < |b| {
      assert !b[i + 1].free && b[i + 1].start == b[i].End();
      var x := (b[i + 1].start, b[i + 1].size);
      assert x in Live(c);
      LiveAvoids(c, units, i, x);
      var j :| 0 <= j < |c| && !c[j].free && x == (c[j].start, c[j].size);
      assert j != i;
      if j < i { Ordered(c, units, j, i); } else { Ordered(c, units, i, j); }
    }
  }

  /** A well-formed heap is determined by its size and its live blocks. */
  lemma {:induction false} Canonical(b: Layout, c: Layout, units: nat)
    requires WellFormed(b, units) && WellFormed(c, units) && Live(b) == Live(c)
    ensures b == c
  {
    SamePrefix(b, c, units, 0);
  }

  /** A release right after an allocation restores the exact layout. */
  lemma {:induction false} DeallocUndoesAlloc(b: Layout, units: nat, k: nat, want: nat, align: nat)
    requires WellFormed(b, units) && k < |b| && align > 0 && Fits(b[k], want, align) && want > 0
    ensures var r := AllocAt(b, k, want, align);
            var j := FindStart(r, b[k].start + Extra(b[k].start, align), 0);
            j >= 0 && !r[j].free && DeallocAt(r, j) == b
  {
    AllocAddsOne(b, units, k, want, align);
    var r := AllocAt(b, k, want, align);
    var s := b[k].start + Extra(b[k].start, align);
    assert (s, want) in Live(r);
    var m :| 0 <= m < |r| && !r[m].free && (r[m].start, r[m].size) == (s, want);
    var j := FindStart(r, s, 0);
    StartsDistinct(r, units, j, m);
    DeallocRemovesOne(r, units, j);
    assert Live(DeallocAt(r, j)) == Live(b);
    Canonical(DeallocAt(r, j), b, units);
  }

  // ----- when an allocation fails -----

  lemma {:induction false} Covering(b: Layout, units: nat, s: nat, n: nat) returns (i: nat)
    requires Tiles(b, units) && 0 < n <= |b| && s < b[n - 1].End()
    ensures i < n && b[i].start <= s < b[i].End()
  {
    if b[n - 1].start <= s { i := n - 1; } else { i := Covering(b, units, s, n - 1); }
  }

  /** [s, s + want) lies in the heap and meets no live block. */
  ghost predicate Gap(b: Layout, units: nat, s: nat, want: nat) {
    s + want <= units && forall x :: x in Live(b) ==> s + want <= x.0 || x.0 + x.1 <= s
  }

  /** Some aligned stretch of `want` units avoids every live block. */
  ghost predicate HasRoom(b: Layout, units: nat, want: nat, align: nat)
    requires align > 0
  {
    exists s: nat :: s % align == 0 && Gap(b, units, s, want)
  }

  /** A gap lies in one free block, because free blocks are as long as they can be. */
  lemma {:induction false} GapLiesInOneBlock(b: Layout, units: nat, s: nat, want: nat) returns (i: nat)
    requires WellFormed(b, units) && want > 0 && Gap(b, units, s, want)
    ensures i < |b| && b[i].free && b[i].start <= s && s + want <= b[i].End()
  {
    i := Covering(b, units, s, |b|);
    assert !b[i].free ==> (b[i].start, b[i].size) in Live(b);
    if i + 1 < |b| {
      assert b[i].free ==> !b[i + 1].free && b[i + 1].start == b[i].End();
      assert !b[i + 1].free ==> (b[i + 1].start, b[i + 1].size) in Live(b);
    }
  }

  lemma {:induction false} FreeBlockIsGap(b: Layout, units: nat, k: nat, s: nat, want: nat)
    requires WellFormed(b, units) && k < |b| && b[k].free && b[k].start <= s && s + want <= b[k].End()
    ensures Gap(b, units, s, want)
  {
    WithinHeap(b, units, k);
    forall x | x in Live(b) ensures s + want <= x.0 || x.0 + x.1 <= s {
      var j :| 0 <= j < |b| && !b[j].free && x == (b[j].start, b[j].size);
      if j < k { Ordered(b, units, j, k); } else { Ordered(b, units, k, j); }
    }
  }

  /** The best-fit search succeeds exactly when some aligned stretch of the heap avoids every live block. */
  lemma {:induction false} SucceedsIffGap(b: Layout, units: nat, want: nat, align: nat)
    requires WellFormed(b, units) && want > 0 && align > 0
    ensures BestFit(b, |b|, want, align) >= 0 <==> HasRoom(b, units, want, align)
  {
    var k := BestFit(b, |b|, want, align);
    BestFitIsLeast(b, |b|, want, align);
    if k >= 0 {
      var s := b[k].start + Extra(b[k].start, align);
      ExtraAligns(b[k].start, align);
      FreeBlockIsGap(b, units, k, s, want);
    }
    if HasRoom(b, units, want, align) {
      var s: nat :| s % align == 0 && Gap(b, units, s, want);
      var i := GapLiesInOneBlock(b, units, s, want);
      ExtraIsLeast(b[i].start, align, s);
      assert Fits(b[i], want, align);
    }
  }

  // ----- requests -----

  /** The rounded request covers the requested bytes exactly when rounding up stays within `size_t`. */
  lemma {:induction false} RoundingCovers(size: nat)
    requires 0 < size <= SIZE_MAX
    ensures RoundedUnits(size) * 32 >= size <==> size <= 0xFFFF_FFFF_FFFF_FFE0
    ensures RoundedUnits(size) > 0 <==> size <= 0xFFFF_FFFF_FFFF_FFE0
    ensures RoundedUnits(size) > 0 ==> RoundedUnits(size) * 32 < size + 32
  {
    if size <= SIZE_MAX - (MEMORY_ALIGN - 1) {
      assert (size + MEMORY_ALIGN - 1) % (SIZE_MAX + 1) == size + MEMORY_ALIGN - 1;
    } else {
      assert (size + MEMORY_ALIGN - 1) % (SIZE_MAX + 1) == size + MEMORY_ALIGN - 1 - (SIZE_MAX + 1);
    }
  }

  /** A request that wraps round to zero units leaves a block without a size behind. */
  lemma {:induction false} WrappedRequestBreaksPositive(b: Layout, units: nat, k: nat, align: nat)
    requires Tiles(b, units) && k < |b| && align > 0 && Fits(b[k], 0, align)
    ensures !Positive(AllocAt(b, k, 0, align))
  {
    var m := k + if Extra(b[k].start, align) > 0 then 1 else 0;
    assert AllocAt(b, k, 0, align)[m].size == 0;
  }

  /** The request wraps round to zero units. */
  predicate Wraps(size: nat) {
    size > SIZE_MAX - (MEMORY_ALIGN - 1)
  }

  /** `alloc` keeps a heap well formed exactly when the request does not wrap or finds no block that could be aligned. */
  lemma {:induction false} AllocKeepsExactly(b: Layout, units: nat, size: nat, align: nat)
    requires WellFormed(b, units) && align > 0 && size <= SIZE_MAX
    ensures WellFormed(Alloc(b, size, align).0, units) <==>
      !Wraps(size) || forall i :: 0 <= i < |b| ==> !Fits(b[i], 0, align)
  {
    hide WellFormed, Fits, AllocAt, RoundedUnits;
    if size > 0 {
      var want := RoundedUnits(size);
      var k := BestFit(b, |b|, want, align);
      RoundingCovers(size);
      BestFitIsLeast(b, |b|, want, align);
      if k >= 0 && want > 0 {
        AllocAddsOne(b, units, k, want, align);
      } else if k >= 0 {
        Unfold(b, units);
        WrappedRequestBreaksPositive(b, units, k, align);
        Unfold(AllocAt(b, k, 0, align), units);
      }
    }
  }

  lemma Unfold(b: Layout, units: nat)
    ensures WellFormed(b, units) <==> Tiles(b, units) && Coalesced(b) && Positive(b)
  {
  }

  /** The largest request on an empty heap gets a block of no size at offset 0. */
  lemma {:induction false} LargestRequestIsEmpty(units: nat)
    requires units > 0
    ensures var whole := [Block(0, units, true)];
      && WellFormed(whole, units)
      && Alloc(whole, SIZE_MAX, 1) == ([Block(0, 0, false), Block(0, units, true)], 0)
      && !WellFormed(Alloc(whole, SIZE_MAX, 1).0, units)
  {
    var whole := [Block(0, units, true)];
    RoundingCovers(SIZE_MAX);
    assert BestFit(whole, 1, 0, 1) == 0 by { assert BestFit(whole, 0, 0, 1) == -1; }
    assert whole[..0] == [] && whole[1..] == [];
    assert Carve(whole[0], 0, 1) == [Block(0, 0, false), Block(0, units, true)];
    assert AllocAt(whole, 0, 0, 1) == [Block(0, 0, false), Block(0, units, true)];
    assert Alloc(whole, SIZE_MAX, 1).0[0].size == 0;
  }

  lemma NoUnits()
    ensures RoundedUnits(0) == 0
  {
  }

  /** What a caller gets from `alloc`. A request of nothing gets offset 0 and leaves no record. Else, without wrapping: on
      success a block of whole units that covers the request, lies on the alignment, meets no live block and is the only one
      added; on failure there was no room anywhere. A failure changes nothing, and a request that wraps never gets what it
      asked for. */
  lemma {:induction false} AllocContract(b: Layout, units: nat, size: nat, align: nat)
    requires WellFormed(b, units) && align > 0 && size <= SIZE_MAX
    ensures var (r, offset) := Alloc(b, size, align);
            var want := RoundedUnits(size);
            && (size == 0 ==> r == b && offset == 0)
            && (offset == NO_MEMORY ==> r == b)
            && (Wraps(size) || size == 0 <==> want == 0)
            && (!Wraps(size) ==> WellFormed(r, units))
            && (size > 0 && !Wraps(size) ==> (offset == NO_MEMORY <==> !HasRoom(b, units, want, align)))
            && (size > 0 && offset != NO_MEMORY ==>
                  && offset >= 0 && offset % MEMORY_ALIGN == 0
                  && var s := offset / MEMORY_ALIGN;
                  && s % align == 0
                  && Gap(b, units, s, want)
                  && (want * MEMORY_ALIGN >= size <==> !Wraps(size))
                  && Live(r) == Live(b) + {(s, want)})
  {
    hide WellFormed, Live, Gap, HasRoom, RoundedUnits, AllocAt, Extra;
    NoUnits();
    if size == 0 {
      return;
    }
    var want := RoundedUnits(size);
    RoundingCovers(size);
    if want > 0 {
      SucceedsIffGap(b, units, want, align);
    }
    var k := BestFit(b, |b|, want, align);
    if k >= 0 {
      var s := b[k].start + Extra(b[k].start, align);
      ExtraAligns(b[k].start, align);
      FreeBlockIsGap(b, units, k, s, want);
      if want > 0 {
        AllocAddsOne(b, units, k, want, align);
      } else {
        LiveAlloc(b, k, want, align);
      }
      assert Alloc(b, size, align).1 == s * MEMORY_ALIGN;
    }
  }

  /** A stretch of the heap that would do for a request: it avoids every live block and, for a request that is to be page
      aligned, starts at a multiple of the page. */
  ghost predicate Place(b: Layout, units: nat, want: nat, pageAligned: bool, page: nat, s: nat)
    requires page > 0
  {
    (pageAligned ==> s % page == 0) && Gap(b, units, s, want)
  }

  /** A page-aligned request gets a multiple of the page. */
  lemma {:induction false} AlignedOffset(b: Layout, size: nat, pageAligned: bool, page: nat)
    requires page > 0
    ensures var offset := Alloc(b, size, Align(pageAligned, page)).1;
      offset != NO_MEMORY ==> offset % MEMORY_ALIGN == 0 && (pageAligned ==> offset % (page * MEMORY_ALIGN) == 0)
  {
    hide AllocAt, RoundedUnits, Extra, Fits;
    var align := Align(pageAligned, page);
    var k := BestFit(b, |b|, RoundedUnits(size), align);
    if size == 0 {
      ZeroIsMultiple(page);
    } else if k >= 0 {
      var s := b[k].start + Extra(b[k].start, align);
      ExtraAligns(b[k].start, align);
      if pageAligned {
        ScaledMultiple(s, page);
      }
    }
  }

  lemma ZeroIsMultiple(page: nat)
    requires page > 0
    ensures 0 % (page * MEMORY_ALIGN) == 0
  {
  }

  lemma {:induction false} ScaledMultiple(s: nat, page: nat)
    requires page > 0 && s % page == 0
    ensures s * MEMORY_ALIGN % (page * MEMORY_ALIGN) == 0
  {
    var q := s / page;
    assert s == page * q;
    assert s * MEMORY_ALIGN == (page * MEMORY_ALIGN) * q by { Reorder(page, q); }
    MultipleMod(q, page * MEMORY_ALIGN);
  }

  lemma {:induction false} Reorder(page: nat, q: int)
    ensures page * q * MEMORY_ALIGN == (page * MEMORY_ALIGN) * q
  {
  }

  /** A request is refused exactly when there is no place for it. */
  lemma {:induction false} RefusedExactly(b: Layout, units: nat, size: nat, pageAligned: bool, page: nat)
    requires WellFormed(b, units) && page > 0 && 0 < size <= SIZE_MAX && !Wraps(size)
    ensures Alloc(b, size, Align(pageAligned, page)).1 == -12 // -ENOMEM
      <==> forall s: nat :: !Place(b, units, RoundedUnits(size), pageAligned, page, s)
  {
    hide WellFormed, Gap, RoundedUnits, Live;
    var want, align := RoundedUnits(size), Align(pageAligned, page);
    AllocContract(b, units, size, align);
    if s: nat :| s % align == 0 && Gap(b, units, s, want) {
      assert Place(b, units, want, pageAligned, page, s);
    }
    if s: nat :| Place(b, units, want, pageAligned, page, s) {
      assert s % 1 == 0;
      assert s % align == 0;
    }
  }

  /** Where a request goes: to the first place in the smallest free block that has one, and in the first such block. */
  lemma {:induction false} GoesToBestPlace(b: Layout, units: nat, size: nat, pageAligned: bool, page: nat) returns (k: nat)
    requires WellFormed(b, units) && page > 0 && 0 < size <= SIZE_MAX && !Wraps(size)
    requires Alloc(b, size, Align(pageAligned, page)).1 != NO_MEMORY
    ensures var want, offset := RoundedUnits(size), Alloc(b, size, Align(pageAligned, page)).1;
      && offset >= 0 && k < |b| && b[k].free
      && Place(b, units, want, pageAligned, page, offset / MEMORY_ALIGN)
      && b[k].start <= offset / MEMORY_ALIGN && offset / MEMORY_ALIGN + want <= b[k].End()
      && (forall s: nat :: b[k].start <= s < offset / MEMORY_ALIGN ==> !Place(b, units, want, pageAligned, page, s))
      && forall i, s: nat {:trigger b[i], Place(b, units, want, pageAligned, page, s)} ::
           0 <= i < |b| && Place(b, units, want, pageAligned, page, s) && b[i].start <= s && s + want <= b[i].End() && b[i].free ==>
             b[k].size <= b[i].size && (i < k ==> b[k].size < b[i].size)
  {
    hide WellFormed, Gap, RoundedUnits, Live, Extra, AllocAt;
    var want, align := RoundedUnits(size), Align(pageAligned, page);
    AllocContract(b, units, size, align);
    k := BestFit(b, |b|, want, align);
    BestFitIsLeast(b, |b|, want, align);
    var s := b[k].start + Extra(b[k].start, align);
    ExtraAligns(b[k].start, align);
    assert Alloc(b, size, align).1 == s * MEMORY_ALIGN;
    forall s': nat | b[k].start <= s' && Place(b, units, want, pageAligned, page, s')
      ensures s <= s'
    {
      AlignedPlace(b, units, want, pageAligned, page, s');
      ExtraIsLeast(b[k].start, align, s');
    }
    forall i, s': nat {:trigger b[i], Place(b, units, want, pageAligned, page, s')} |
        0 <= i < |b| && Place(b, units, want, pageAligned, page, s') && b[i].start <= s' && s' + want <= b[i].End() && b[i].free
      ensures Fits(b[i], want, align)
    {
      AlignedPlace(b, units, want, pageAligned, page, s');
      ExtraIsLeast(b[i].start, align, s');
    }
  }

  lemma {:induction false} AlignedPlace(b: Layout, units: nat, want: nat, pageAligned: bool, page: nat, s: nat)
    requires page > 0 && Place(b, units, want, pageAligned, page, s)
    ensures s % Align(pageAligned, page) == 0
  {
    assert s % 1 == 0;
  }

  /** What a caller gets from `dealloc`: the block at that offset is no longer live and everything else is. */
  lemma {:induction false} DeallocContract(b: Layout, units: nat, offset: nat)
    requires WellFormed(b, units)
    ensures var (r, found) := Dealloc(b, offset);
            var s := offset / MEMORY_ALIGN;
            && WellFormed(r, units)
            && (found <==> exists i :: 0 <= i < |b| && b[i].start == s)
            && Live(r) == (set x | x in Live(b) && x.0 != s)
            && (Live(r) == Live(b) ==> r == b)
  {
    var s := offset / MEMORY_ALIGN;
    var k := FindStart(b, s, 0);
    if k >= 0 {
      forall x | x in Live(b) && x.0 == s ensures x == (b[k].start, b[k].size) && !b[k].free {
        var j :| 0 <= j < |b| && !b[j].free && x == (b[j].start, b[j].size);
        StartsDistinct(b, units, j, k);
      }
      if b[k].free {
        DoubleFreeIsNoOp(b, units, k);
      } else {
        DeallocRemovesOne(b, units, k);
      }
    }
    var r := Dealloc(b, offset).0;
    if WellFormed(r, units) && Live(r) == Live(b) { Canonical(r, b, units); }
  }

  /** Block k with a free block of no size in it, `extra` units behind its start. */
  ghost function Notched(b: Layout, k: nat, extra: nat): Layout
    requires k < |b| && extra <= b[k].size
  {
    var c := b[k];
    b[..k] + (if extra > 0 then [Block(c.start, extra, true)] else []) + [Block(c.start + extra, 0, true)]
    + (if c.size > extra then [Block(c.start + extra, c.size - extra, true)] else []) + b[k + 1..]
  }

  /** The merging loop absorbs it into the padding before it, */
  lemma {:induction false} PaddedNotch(b: Layout, k: nat, extra: nat)
    requires k < |b| && b[k].free && 0 < extra <= b[k].size && (k + 1 < |b| ==> !b[k + 1].free)
    ensures MergeFrom(Notched(b, k, extra), k + 1) == b
  {
    var f := Notched(b, k, extra);
    var g := Absorb(f, k + 1);
    assert g[k] == Block(b[k].start, extra, true);
    if b[k].size > extra {
      assert g[k + 1] == Block(b[k].start + extra, b[k].size - extra, true);
      if k + 1 < |b| { assert g[k + 2] == b[k + 1]; }
      MergeRight(g, k + 1);
      assert Absorb(g, k + 1) == b;
    } else {
      if k + 1 < |b| { assert g[k + 1] == b[k + 1]; }
      assert g == b;
    }
  }

  /** or into an allocated block before it, */
  lemma {:induction false} AllocatedNotch(b: Layout, k: nat)
    requires 0 < k < |b| && b[k].free && b[k].size > 0 && b[k - 1].End() == b[k].start
    requires !b[k - 1].free && (k + 1 < |b| ==> !b[k + 1].free)
    ensures MergeFrom(Notched(b, k, 0), k) == b
  {
    var f := Notched(b, k, 0);
    assert f[k - 1] == b[k - 1] && f[k] == Block(b[k].start, 0, true) && f[k + 1] == b[k];
    assert Absorb(f, k) == b;
    MergeNothing(b, k);
  }

  /** or, at the start of the heap, the block behind it is absorbed into it. */
  lemma {:induction false} FirstNotch(b: Layout)
    requires 0 < |b| && b[0].free && b[0].size > 0 && (1 < |b| ==> !b[1].free)
    ensures MergeFrom(Notched(b, 0, 0), 0) == b
  {
    var f := Notched(b, 0, 0);
    assert f[0] == Block(b[0].start, 0, true) && f[1] == b[0];
    if 1 < |b| { assert f[2] == b[1]; }
    MergeRight(f, 1);
    assert Absorb(f, 1) == b;
  }

  /** A block without a size is absorbed again by its neighbours, allocated or not. */
  lemma {:induction false} DeallocUndoesEmpty(b: Layout, units: nat, k: nat, align: nat)
    requires WellFormed(b, units) && k < |b| && align > 0 && Fits(b[k], 0, align)
    ensures var r := AllocAt(b, k, 0, align);
            var j := FindStart(r, b[k].start + Extra(b[k].start, align), 0);
            j >= 0 && DeallocAt(r, j) == b
  {
    hide WellFormed, Extra, MergeFrom;
    var r, extra := AllocAt(b, k, 0, align), Extra(b[k].start, align);
    var m := k + if extra > 0 then 1 else 0;
    assert r[m] == Block(b[k].start + extra, 0, false);
    EmptyIsFound(b, units, k, align, m);
    assert r[m := r[m].(free := true)] == Notched(b, k, extra);
    Neighbours(b, units, k);
    if extra > 0 {
      PaddedNotch(b, k, extra);
    } else if k > 0 {
      AllocatedNotch(b, k);
    } else {
      FirstNotch(b);
    }
  }

  lemma {:induction false} EmptyIsFound(b: Layout, units: nat, k: nat, align: nat, m: nat)
    requires WellFormed(b, units) && k < |b| && align > 0 && Fits(b[k], 0, align)
    requires m == k + if Extra(b[k].start, align) > 0 then 1 else 0
    ensures var r := AllocAt(b, k, 0, align);
            m < |r| && FindStart(r, b[k].start + Extra(b[k].start, align), 0) == m
  {
    hide WellFormed, Extra;
    var r, s := AllocAt(b, k, 0, align), b[k].start + Extra(b[k].start, align);
    assert r[m].start == s;
    forall j | 0 <= j < m
      ensures r[j].start < s
    {
      if j < k {
        assert r[j] == b[j];
        EarlierStart(b, units, j, k);
      }
    }
  }

  lemma {:induction false} EarlierStart(b: Layout, units: nat, j: nat, k: nat)
    requires WellFormed(b, units) && j < k < |b|
    ensures b[j].start < b[k].start
  {
    Ordered(b, units, j, k);
  }

  lemma {:induction false} Neighbours(b: Layout, units: nat, k: nat)
    requires WellFormed(b, units) && k < |b| && b[k].free
    ensures b[k].size > 0 && (k > 0 ==> !b[k - 1].free) && (k + 1 < |b| ==> !b[k + 1].free)
    ensures k > 0 ==> b[k - 1].End() == b[k].start
  {
  }

  /** The offset of a request of nothing aliases whatever starts the heap: releasing it does nothing exactly when that is
      free, and else releases the block that lives there. */
  lemma {:induction false} NothingIsAlias(b: Layout, units: nat, align: nat)
    requires WellFormed(b, units) && align > 0
    ensures Alloc(b, 0, align) == (b, 0) && Dealloc(b, 0).1
    ensures Dealloc(b, 0).0 == b <==> b[0].free
    ensures !b[0].free ==> (0, b[0].size) in Live(b) && Live(Dealloc(b, 0).0) == Live(b) - {(0, b[0].size)}
  {
    hide DeallocAt, Coalesced, Positive;
    assert FindStart(b, 0, 0) == 0;
    if b[0].free {
      DoubleFreeIsNoOp(b, units, 0);
    } else {
      assert (b[0].start, b[0].size) in Live(b);
      DeallocRemovesOne(b, units, 0);
    }
  }

  /** Releasing at once what `alloc` returned restores the heap, even when the request had wrapped, unless the request was
      for nothing and a live block starts the heap. */
  lemma {:induction false} DeallocUndoes(b: Layout, units: nat, size: nat, align: nat)
    requires WellFormed(b, units) && align > 0 && size <= SIZE_MAX
    ensures var (r, offset) := Alloc(b, size, align);
            offset != NO_MEMORY ==> offset >= 0 && (Dealloc(r, offset) == (b, true) <==> size > 0 || b[0].free)
  {
    hide WellFormed, Fits, AllocAt, DeallocAt, FindStart, RoundedUnits;
    if size == 0 {
      NothingIsAlias(b, units, align);
      return;
    }
    var want := RoundedUnits(size);
    var k := BestFit(b, |b|, want, align);
    if k >= 0 {
      var s := b[k].start + Extra(b[k].start, align);
      assert s * MEMORY_ALIGN / MEMORY_ALIGN == s;
      if want > 0 {
        DeallocUndoesAlloc(b, units, k, want, align);
      } else {
        DeallocUndoesEmpty(b, units, k, align);
      }
    }
  }

  // ----- whole runs -----

  /** A `size_t` is asked for. */
  ghost predicate Request(op: Op) {
    op.Allocate? ==> op.size <= SIZE_MAX
  }

  /** A request that wraps and finds a block that could be aligned. */
  ghost predicate Breaks(b: Layout, op: Op, page: nat)
    requires page > 0
  {
    op.Allocate? && Wraps(op.size) && exists i :: 0 <= i < |b| && Fits(b[i], 0, Align(op.pageAligned, page))
  }

  lemma {:induction false} StepKeepsExactly(b: Layout, units: nat, op: Op, page: nat)
    requires WellFormed(b, units) && page > 0 && Request(op)
    ensures WellFormed(Step(b, op, page), units) <==> !Breaks(b, op, page)
  {
    hide WellFormed, Alloc, Dealloc, Fits;
    match op
    case Allocate(size, pageAligned) => AllocKeepsExactly(b, units, size, Align(pageAligned, page));
    case Deallocate(offset) => DeallocContract(b, units, offset);
  }

  /** Along a run of allocations and releases, valid or not, the heap is well formed at every point exactly when no request
      that wraps finds a block that could be aligned. */
  lemma {:induction false} RunKeepsWellFormed(b: Layout, units: nat, ops: seq<Op>, page: nat)
    requires WellFormed(b, units) && page > 0 && forall op :: op in ops ==> Request(op)
    ensures (forall n :: 0 <= n <= |ops| ==> WellFormed(Run(b, ops[..n], page), units)) <==>
      (forall n :: 0 <= n < |ops| ==> !Breaks(Run(b, ops[..n], page), ops[n], page))
  {
    hide WellFormed, Breaks, Step, Request;
    forall n | 0 <= n < |ops| && WellFormed(Run(b, ops[..n], page), units)
      ensures WellFormed(Run(b, ops[..n + 1], page), units) <==> !Breaks(Run(b, ops[..n], page), ops[n], page)
    {
      RunSnoc(b, ops, n, page);
      StepKeepsExactly(Run(b, ops[..n], page), units, ops[n], page);
    }
    if forall n :: 0 <= n < |ops| ==> !Breaks(Run(b, ops[..n], page), ops[n], page) {
      for m := 0 to |ops|
        invariant forall n :: 0 <= n <= m ==> WellFormed(Run(b, ops[..n], page), units)
      {
        assert !Breaks(Run(b, ops[..m], page), ops[m], page);
      }
    } else {
      var n :| 0 <= n < |ops| && Breaks(Run(b, ops[..n], page), ops[n], page);
      assert !WellFormed(Run(b, ops[..n], page), units) || !WellFormed(Run(b, ops[..n + 1], page), units);
    }
  }

  lemma {:induction false} RunSnoc(b: Layout, ops: seq<Op>, n: nat, page: nat)
    requires n < |ops| && page > 0
    ensures Run(b, ops[..n + 1], page) == Step(Run(b, ops[..n], page), ops[n], page)
    decreases n
  {
    hide Step;
    if n == 0 {
      assert ops[..1][1..] == [];
    } else {
      assert ops[..n + 1][1..] == ops[1..][..n] && ops[..n][1..] == ops[1..][..n - 1];
      RunSnoc(Step(b, ops[0], page), ops[1..], n - 1, page);
    }
  }

  /** The merging loop leaves no two free neighbours, wherever it starts between them. */
  lemma {:induction false} MergeCoalesces(b: Layout, k: nat)
    requires k < |b|
    requires forall i, j {:trigger b[i], b[j]} :: 0 <= i && j == i + 1 && j < |b| && j != k && i != k ==> !(b[i].free && b[j].free)
    ensures Coalesced(MergeFrom(b, k))
    decreases |b| - k
  {
    var merge := k > 0 && (b[k - 1].free || b[k].size == 0);
    var b' := if merge then Absorb(b, k) else b;
    var k' := if merge then k else k + 1;
    if merge {
      forall i | 0 <= i < |b'| ensures b'[i].free == b[if i < k then i else i + 1].free {
      }
    }
    if k' < |b'| && b'[k'].free {
      MergeCoalesces(b', k');
    }
  }

  /** Whatever is requested and released: the blocks tile the heap and no two neighbours are free. */
  lemma {:induction false} RunKeepsShape(b: Layout, units: nat, ops: seq<Op>, page: nat)
    requires Tiles(b, units) && Coalesced(b) && page > 0
    ensures Tiles(Run(b, ops, page), units) && Coalesced(Run(b, ops, page))
    decreases |ops|
  {
    hide Tiles, Coalesced, AllocAt, DeallocAt, RoundedUnits, Fits;
    if ops != [] {
      match ops[0] {
        case Allocate(size, pageAligned) =>
          var want, align := RoundedUnits(size), Align(pageAligned, page);
          var k := BestFit(b, |b|, want, align);
          if k >= 0 {
            AllocKeepsTiles(b, units, k, want, align);
            AllocKeepsCoalesced(b, units, k, want, align);
          }
        case Deallocate(offset) =>
          var k := FindStart(b, offset / MEMORY_ALIGN, 0);
          if k >= 0 {
            DeallocKeepsTiles(b, units, k);
            DeallocCoalesces(b, k);
          }
      }
      RunKeepsShape(Step(b, ops[0], page), units, ops[1..], page);
    }
  }

  lemma {:induction false} DeallocCoalesces(b: Layout, k: nat)
    requires Coalesced(b) && k < |b|
    ensures Coalesced(DeallocAt(b, k))
  {
    MergeCoalesces(b[k := b[k].(free := true)], k);
  }

  lemma {:induction false} OneFree(b: Layout, units: nat)
    requires Tiles(b, units) && Coalesced(b) && Live(b) == {}
    ensures b == [Block(0, units, true)]
  {
    hide Coalesced, Live;
    FreeUnlessLive(b, 0);
    if |b| > 1 {
      FreeUnlessLive(b, 1);
      NotBothFree(b);
      assert false;
    }
  }

  lemma {:induction false} FreeUnlessLive(b: Layout, i: nat)
    requires i < |b|
    ensures b[i].free || (b[i].start, b[i].size) in Live(b)
  {
  }

  lemma {:induction false} NotBothFree(b: Layout)
    requires Coalesced(b) && |b| > 1
    ensures !b[0].free || !b[1].free
  {
  }

  /** However a run got there, and whatever was requested: once nothing is live, the heap is one free block again. */
  lemma {:induction false} AllFreedIsOneBlock(units: nat, ops: seq<Op>, page: nat)
    requires page > 0
    ensures var r := Run([Block(0, units, true)], ops, page);
            Live(r) == {} <==> r == [Block(0, units, true)]
  {
    hide Run;
    var whole := [Block(0, units, true)];
    var r := Run(whole, ops, page);
    RunKeepsShape(whole, units, ops, page);
    if Live(r) == {} {
      OneFree(r, units);
    } else {
      LiveOne(whole[0]);
    }
  }
}
