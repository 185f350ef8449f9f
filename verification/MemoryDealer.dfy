/** The doubly linked chunk list and the best-fit allocator over it (MemoryDealer.cpp), in place. */
module MemoryDealer {
  import opened BestFitSpec
  import BestFitProofs

  /** A chunk of the heap. `size` is a 28-bit field in the source; see `SimpleBestFitAllocator.Valid`. */
  class Chunk {
    var start: nat
    var size: nat
    var free: bool
    var prev: Chunk?
    var next: Chunk?

    constructor (start: nat, size: nat)
      ensures View() == Block(start, size, true) && prev == null && next == null
    {
      this.start, this.size, this.free := start, size, true;
      prev, next := null, null;
    }

    ghost function View(): Block
      reads this
    {
      Block(start, size, free)
    }
  }

  ghost predicate Distinct<T>(s: seq<T>) {
    forall i, j :: 0 <= i < j < |s| ==> s[i] != s[j]
  }

  /** `now` is `was` with x put in at index k. */
  ghost predicate Inserted<T>(now: seq<T>, was: seq<T>, k: nat, x: T) {
    && k <= |was| && |now| == |was| + 1
    && forall i {:trigger now[i]} :: 0 <= i < |now| ==> now[i] == if i < k then was[i] else if i == k then x else was[i - 1]
  }

  /** `now` is `was` without the element at index k. */
  ghost predicate Removed<T>(now: seq<T>, was: seq<T>, k: nat) {
    && k < |was| && |now| == |was| - 1
    && forall i {:trigger now[i]} :: 0 <= i < |now| ==> now[i] == was[if i < k then i else i + 1]
  }

  lemma {:induction false} Insertion<T>(was: seq<T>, k: nat, x: T) returns (now: seq<T>)
    requires k <= |was|
    ensures Inserted(now, was, k, x)
    ensures Distinct(was) && x !in was ==> Distinct(now)
  {
    now := was[..k] + [x] + was[k..];
  }

  lemma {:induction false} Removal<T>(was: seq<T>, k: nat) returns (now: seq<T>)
    requires k < |was|
    ensures Removed(now, was, k)
    ensures Distinct(was) ==> Distinct(now)
  {
    now := was[..k] + was[k + 1..];
  }

  /** The chunks say what the layout says, in list order. */
  ghost predicate Shows(nodes: seq<Chunk>, b: Layout)
    reads nodes
  {
    |nodes| == |b| && forall i :: 0 <= i < |nodes| ==> nodes[i].View() == b[i]
  }

  lemma {:induction false} ShowsInserted(was: seq<Chunk>, now: seq<Chunk>, k: nat, x: Chunk, b: Layout, c: Layout)
    requires Shows(was, b) && Inserted(now, was, k, x) && Inserted(c, b, k, x.View())
    ensures Shows(now, c)
    ensures forall i :: k <= i < |was| ==> i + 1 < |now| && now[i + 1] == was[i]
  {
    forall i | 0 <= i < |now|
      ensures now[i].View() == c[i]
    {
      if i < k {
        assert was[i].View() == b[i];
      } else if i > k {
        assert was[i - 1].View() == b[i - 1];
      }
    }
  }

  class ChunkList {
    var mFirst: Chunk?
    var mLast: Chunk?
    ghost var nodes: seq<Chunk>

    ghost predicate Valid()
      reads this, nodes
    {
      && mFirst == (if nodes == [] then null else nodes[0])
      && mLast == (if nodes == [] then null else nodes[|nodes| - 1])
      && (forall i {:trigger nodes[i].prev} :: 0 <= i < |nodes| ==>
            nodes[i].prev == if i == 0 then null else nodes[i - 1])
      && (forall i {:trigger nodes[i].next} :: 0 <= i < |nodes| ==>
            nodes[i].next == if i + 1 == |nodes| then null else nodes[i + 1])
      && Distinct(nodes)
    }

    constructor ()
      ensures Valid() && nodes == []
    {
      mFirst, mLast, nodes := null, null, [];
    }

    method InsertAfter(node: Chunk, newNode: Chunk, ghost k: nat)
      requires Valid() && k < |nodes| && nodes[k] == node && newNode !in nodes
      modifies this, nodes, newNode
      ensures Valid() && Inserted(nodes, old(nodes), k + 1, newNode)
      ensures forall c | c in old(nodes) || c == newNode :: c.View() == old(c.View())
    {
      newNode.prev := node;
      newNode.next := node.next;
      if node.next == null {
        mLast := newNode;
      } else {
        node.next.prev := newNode;
      }
      node.next := newNode;
      nodes := Insertion(nodes, k + 1, newNode);
    }

    method InsertBefore(node: Chunk, newNode: Chunk, ghost k: nat)
      requires Valid() && k < |nodes| && nodes[k] == node && newNode !in nodes
      modifies this, nodes, newNode
      ensures Valid() && Inserted(nodes, old(nodes), k, newNode)
      ensures forall c | c in old(nodes) || c == newNode :: c.View() == old(c.View())
    {
      newNode.prev := node.prev;
      newNode.next := node;
      if node.prev == null {
        mFirst := newNode;
      } else {
        node.prev.next := newNode;
      }
      node.prev := newNode;
      nodes := Insertion(nodes, k, newNode);
    }

    method InsertHead(newNode: Chunk)
      requires Valid() && newNode !in nodes
      modifies this, nodes, newNode
      ensures Valid() && nodes == [newNode] + old(nodes)
      ensures forall c | c in old(nodes) || c == newNode :: c.View() == old(c.View())
    {
      if mFirst == null {
        mFirst, mLast := newNode, newNode;
        newNode.prev, newNode.next := null, null;
      } else {
        newNode.prev := null;
        newNode.next := mFirst;
        mFirst.prev := newNode;
        mFirst := newNode;
      }
      nodes := [newNode] + nodes;
    }

    method Remove(node: Chunk, ghost k: nat)
      requires Valid() && k < |nodes| && nodes[k] == node
      modifies this, nodes
      ensures Valid() && Removed(nodes, old(nodes), k)
      ensures forall c | c in old(nodes) :: c.View() == old(c.View())
    {
      Bypass(node, k);
      nodes := Removal(nodes, k);
    }

    /** The neighbours of a chunk are linked to each other. */
    method Bypass(node: Chunk, ghost k: nat)
      requires Valid() && k < |nodes| && nodes[k] == node
      modifies `mFirst, `mLast, nodes
      ensures mFirst == (if k > 0 then old(mFirst) else if |nodes| > 1 then nodes[1] else null)
      ensures mLast == (if k + 1 < |nodes| then old(mLast) else if k > 0 then nodes[k - 1] else null)
      ensures forall i {:trigger nodes[i].prev} :: 0 <= i < |nodes| ==>
        nodes[i].prev == if i == k + 1 then (if k > 0 then nodes[k - 1] else null) else old(nodes[i].prev)
      ensures forall i {:trigger nodes[i].next} :: 0 <= i < |nodes| ==>
        nodes[i].next == if i + 1 == k then (if k + 1 < |nodes| then nodes[k + 1] else null) else old(nodes[i].next)
      ensures forall c | c in nodes :: c.View() == old(c.View())
    {
      var p, n := node.prev, node.next;
      if p == null {
        mFirst := n;
      } else {
        p.next := n;
      }
      if n == null {
        mLast := p;
      } else {
        n.prev := p;
      }
    }
  }

  /** Block k moved up by `extra` units, with a free block in the space it leaves. */
  ghost function PadBefore(b: Layout, k: nat, extra: nat): (r: Layout)
    requires k < |b|
    ensures Inserted(r, b[k := b[k].(start := b[k].start + extra)], k, Block(b[k].start, extra, true))
  {
    b[..k] + [Block(b[k].start, extra, true), b[k].(start := b[k].start + extra)] + b[k + 1..]
  }

  /** A free block of `rest` units put behind block k. */
  ghost function TailAfter(b: Layout, k: nat, rest: nat): (r: Layout)
    requires k < |b|
    ensures Inserted(r, b, k + 1, Block(b[k].End(), rest, true))
  {
    b[..k + 1] + [Block(b[k].End(), rest, true)] + b[k + 1..]
  }

  /** Block k cut down to `want` units behind `extra` units of padding, in the steps `alloc` takes. */
  ghost function SplitSteps(b: Layout, k: nat, want: nat, extra: nat): Layout
    requires k < |b| && b[k].size >= want + extra
  {
    var taken := b[k := Block(b[k].start, want, false)];
    var padded := if extra > 0 then PadBefore(taken, k, extra) else taken;
    var rest := b[k].size - want - extra;
    if rest > 0 then TailAfter(padded, if extra > 0 then k + 1 else k, rest) else padded
  }

  lemma {:induction false} SplitIsAllocAt(b: Layout, k: nat, want: nat, align: nat)
    requires k < |b| && align > 0 && Fits(b[k], want, align)
    ensures SplitSteps(b, k, want, Extra(b[k].start, align)) == AllocAt(b, k, want, align)
  {
    hide Extra;
    var c, extra := b[k], Extra(b[k].start, align);
    var rest := c.size - want - extra;
    var block, pad, tail := Block(c.start + extra, want, false), Block(c.start, extra, true), Block(c.start + extra + want, rest, true);
    var taken := b[k := Block(c.start, want, false)];
    assert taken[..k] == b[..k] && taken[k + 1..] == b[k + 1..];
    if extra == 0 {
      assert taken == b[..k] + [block] + b[k + 1..];
      if rest > 0 {
        assert TailAfter(taken, k, rest) == b[..k] + [block, tail] + b[k + 1..];
      }
    } else {
      var padded := PadBefore(taken, k, extra);
      assert padded == b[..k] + [pad, block] + b[k + 1..];
      if rest > 0 {
        assert padded[..k + 2] == b[..k] + [pad, block] && padded[k + 2..] == b[k + 1..];
        assert TailAfter(padded, k + 1, rest) == b[..k] + [pad, block, tail] + b[k + 1..];
      }
    }
  }

  lemma {:induction false} AbsorbIsRemoval(b: Layout, k: nat)
    requires 0 < k < |b|
    ensures Removed(Absorb(b, k), b[k - 1 := b[k - 1].(size := b[k - 1].size + b[k].size)], k)
  {
  }

  const CHUNK_SIZE_LIMIT: nat := 0x1000_0000

  /** The first chunk covers what was asked for exactly when rounding up to pages stays within `size_t` and the length of
      the heap within 28 bits, and then exceeds it by less than a page. */
  lemma {:induction false} HeapCovers(size: nat, page: nat)
    requires 0 < size <= SIZE_MAX && 0 < page < CHUNK_SIZE_LIMIT
    ensures var pageSize := page * MEMORY_ALIGN;
      var heap := RoundUp(size, pageSize);
      var units := heap / MEMORY_ALIGN % CHUNK_SIZE_LIMIT;
      && (units * MEMORY_ALIGN >= size <==> size <= 0xFFFF_FFFF_FFFF_FFFF - (pageSize - 1) && heap / MEMORY_ALIGN < 0x1000_0000)
      && (units * MEMORY_ALIGN >= size ==> units * MEMORY_ALIGN == heap < size + pageSize)
  {
    hide RoundUp;
    PagesCover(size, page);
  }

  lemma {:induction false} PagesCover(size: nat, page: nat)
    requires 0 < size <= SIZE_MAX && 0 < page < CHUNK_SIZE_LIMIT
    ensures var pageSize := page * MEMORY_ALIGN;
      var heap := RoundUp(size, pageSize);
      var units := heap / MEMORY_ALIGN % CHUNK_SIZE_LIMIT;
      && (units * MEMORY_ALIGN >= size <==> size <= SIZE_MAX - (pageSize - 1) && heap / MEMORY_ALIGN < CHUNK_SIZE_LIMIT)
      && (units * MEMORY_ALIGN >= size ==> units * MEMORY_ALIGN == heap < size + pageSize)
  {
    hide RoundUp;
    var sum := (size + page * MEMORY_ALIGN - 1) % (SIZE_MAX + 1);
    assert sum == if size <= SIZE_MAX - (page * MEMORY_ALIGN - 1) then size + page * MEMORY_ALIGN - 1
                  else size + page * MEMORY_ALIGN - 1 - (SIZE_MAX + 1);
    var length := LengthOf(size, page, page * MEMORY_ALIGN, sum);
    Truncated(length, size, page);
  }

  lemma {:induction false} LengthOf(size: nat, page: nat, pageSize: nat, sum: nat) returns (length: nat)
    requires page > 0 && pageSize == page * MEMORY_ALIGN && sum == (size + pageSize - 1) % (SIZE_MAX + 1)
    ensures RoundUp(size, pageSize) == length * MEMORY_ALIGN <= sum < length * MEMORY_ALIGN + pageSize
  {
    hide RoundUp;
    RoundedDown(size, pageSize, sum);
    length := UnitsOf(sum / pageSize, page);
  }

  lemma {:induction false} RoundedDown(size: nat, unit: nat, sum: nat)
    requires unit > 0 && sum == (size + unit - 1) % (SIZE_MAX + 1)
    ensures RoundUp(size, unit) == sum / unit * unit && RoundUp(size, unit) <= sum < RoundUp(size, unit) + unit
  {
    Floor(sum, unit);
  }

  lemma {:induction false} Floor(n: nat, unit: nat)
    requires unit > 0
    ensures n / unit * unit <= n < n / unit * unit + unit
  {
    assert n == n / unit * unit + n % unit;
  }

  lemma {:induction false} UnitsOf(pages: nat, page: nat) returns (length: nat)
    ensures pages * (page * MEMORY_ALIGN) == length * MEMORY_ALIGN
  {
    ProductIsNat(pages, page);
    length := pages * page;
  }

  lemma {:induction false} Truncated(length: nat, size: nat, page: nat)
    requires length * MEMORY_ALIGN < size + page * MEMORY_ALIGN && page < CHUNK_SIZE_LIMIT
    ensures length >= CHUNK_SIZE_LIMIT ==> length % CHUNK_SIZE_LIMIT * MEMORY_ALIGN < size
  {
  }

  class SimpleBestFitAllocator {
    const mList: ChunkList
    const mHeapSize: nat
    /** The page size, in units of MEMORY_ALIGN bytes. */
    const page: nat

    /** The units the chunks cover. They fit the 28-bit `size` field, so no sum of sizes is cut off. */
    ghost const units: nat
    /** What the chunks say. */
    ghost var blocks: Layout

    ghost predicate Valid()
      reads this, mList, mList.nodes
    {
      Shown() && page > 0 && units < CHUNK_SIZE_LIMIT && Tiles(blocks, units)
    }

    ghost predicate Shown()
      reads this, mList, mList.nodes
    {
      mList.Valid() && Shows(mList.nodes, blocks)
    }

    /** The heap is rounded up to whole pages; the first chunk keeps only the low 28 bits of its length. */
    constructor (size: nat, page: nat)
      requires page > 0 && size <= SIZE_MAX
      ensures Valid() && fresh(mList) && fresh(mList.nodes) && this.page == page
      ensures mHeapSize == RoundUp(size, page * MEMORY_ALIGN)
      ensures units == mHeapSize / MEMORY_ALIGN % CHUNK_SIZE_LIMIT
      ensures blocks == [Block(0, units, true)]
    {
      this.page := page;
      mHeapSize := RoundUp(size, page * MEMORY_ALIGN);
      units := RoundUp(size, page * MEMORY_ALIGN) / MEMORY_ALIGN % CHUNK_SIZE_LIMIT;
      mList := new ChunkList();
      new;
      var node := new Chunk(0, mHeapSize / MEMORY_ALIGN % CHUNK_SIZE_LIMIT);
      mList.InsertHead(node);
      blocks := [Block(0, units, true)];
    }

    method Alloc(size: nat, pageAligned: bool) returns (offset: int)
      requires Valid() && size <= SIZE_MAX
      modifies `blocks, mList, mList.nodes
      ensures Valid()
      ensures blocks == BestFitSpec.Alloc(old(blocks), size, Align(pageAligned, page)).0
      ensures offset == BestFitSpec.Alloc(old(blocks), size, Align(pageAligned, page)).1
      ensures offset != NO_MEMORY ==> offset % MEMORY_ALIGN == 0 && (pageAligned ==> offset % (page * MEMORY_ALIGN) == 0)
      ensures WellFormed(old(blocks), units) && size > 0 && !BestFitProofs.Wraps(size) ==>
        (offset == NO_MEMORY <==> forall s: nat ::
           !BestFitProofs.Place(old(blocks), units, RoundedUnits(size), pageAligned, page, s))
    {
      hide AllocAt, Extra, Tiles, WellFormed, BestFitProofs.Place;
      BestFitProofs.AlignedOffset(blocks, size, pageAligned, page);
      if WellFormed(blocks, units) && size > 0 && !BestFitProofs.Wraps(size) {
        BestFitProofs.RefusedExactly(blocks, units, size, pageAligned, page);
      }
      if size == 0 {
        return 0;
      }
      var want := (size + MEMORY_ALIGN - 1) % (SIZE_MAX + 1) / MEMORY_ALIGN;
      ghost var k := BestFit(blocks, |blocks|, want, Align(pageAligned, page));
      var freeChunk := Search(want, pageAligned);
      if freeChunk == null {
        return NO_MEMORY;
      }
      ghost var b := blocks;
      offset := Split(freeChunk, want, pageAligned, k);
      BestFitProofs.CarvedTiles(b, units, k, want, Align(pageAligned, page), blocks);
    }

    /** The best-fit search of `alloc`. */
    method Search(want: nat, pageAligned: bool) returns (freeChunk: Chunk?)
      requires Valid()
      ensures var k := BestFit(blocks, |blocks|, want, Align(pageAligned, page));
              freeChunk == if k == -1 then null else mList.nodes[k]
    {
      ghost var align := Align(pageAligned, page);
      ghost var b := blocks;
      freeChunk := null;
      var cur := mList.mFirst;
      ghost var i := 0;
      while cur != null
        invariant 0 <= i <= |b|
        invariant if i < |b| then cur == mList.nodes[i] else cur == null
        invariant var best := BestFit(b, i, want, align);
                  freeChunk == if best == -1 then null else mList.nodes[best]
        decreases |b| - i
      {
        assert b[i] == cur.View();
        var extra := if pageAligned then Extra(cur.start, page) else 0;
        if cur.free && cur.size >= want + extra {
          if freeChunk == null || cur.size < freeChunk.size {
            freeChunk := cur;
          }
          if cur.size == want {
            BestFitProofs.ExactIsBest(b, i, want, align);
            break;
          }
        }
        cur := cur.next;
        i := i + 1;
      }
    }

    /** The second half of `alloc`: take `want` units out of the chosen chunk. */
    method Split(freeChunk: Chunk, want: nat, pageAligned: bool, ghost k: nat) returns (offset: nat)
      requires Shown() && page > 0 && k < |blocks| && mList.nodes[k] == freeChunk
      requires Fits(freeChunk.View(), want, Align(pageAligned, page))
      modifies `blocks, mList, mList.nodes
      ensures Shown()
      ensures blocks == AllocAt(old(blocks), k, want, Align(pageAligned, page))
      ensures offset == (old(blocks)[k].start + Extra(old(blocks)[k].start, Align(pageAligned, page))) * MEMORY_ALIGN
    {
      hide PadBefore, TailAfter, AllocAt, Extra, Shown;
      ShownAt(k);
      SplitIsAllocAt(blocks, k, want, Align(pageAligned, page));
      BestFitProofs.ExtraAligns(freeChunk.start, 1);
      var freeSize := freeChunk.size;
      Take(freeChunk, want, k);
      if freeSize > want {
        var extra := if pageAligned then Extra(freeChunk.start, page) else 0;
        Trim(freeChunk, freeSize, extra, k);
      }
      return freeChunk.start * MEMORY_ALIGN;
    }

    /** Give back what a chunk of `freeSize` units does not need, in front of it and behind it. */
    method Trim(chunk: Chunk, freeSize: nat, extra: nat, ghost k: nat)
      requires Shown() && k < |blocks| && mList.nodes[k] == chunk && freeSize >= chunk.size + extra
      modifies `blocks, mList, mList.nodes
      ensures Shown() && chunk.start == old(chunk.start) + extra
      ensures var padded := if extra > 0 then PadBefore(old(blocks), k, extra) else old(blocks);
              var rest := freeSize - old(chunk.size) - extra;
              blocks == if rest > 0 then TailAfter(padded, if extra > 0 then k + 1 else k, rest) else padded
    {
      hide PadBefore, TailAfter, Shown;
      ShownAt(k);
      ghost var at := k;
      if extra > 0 {
        var _ := SplitBefore(chunk, extra, k);
        at := k + 1;
      }
      var tailFree := freeSize - (chunk.size + extra);
      if tailFree > 0 {
        SplitAfter(chunk, tailFree, at);
      }
    }

    lemma {:induction false} ShownAt(k: nat)
      requires Shown() && (k < |blocks| || k < |mList.nodes|)
      ensures k < |blocks| && k < |mList.nodes| && mList.nodes[k].View() == blocks[k]
    {
    }

    method Take(chunk: Chunk, want: nat, ghost k: nat)
      requires Shown() && k < |blocks| && mList.nodes[k] == chunk
      modifies `blocks, mList.nodes
      ensures Shown() && mList.nodes == old(mList.nodes)
      ensures blocks == old(blocks)[k := Block(old(blocks)[k].start, want, false)]
      ensures chunk.start == old(chunk.start) && chunk.size == want
    {
      chunk.free := false;
      chunk.size := want;
      blocks := blocks[k := chunk.View()];
    }

    method MoveUp(chunk: Chunk, extra: nat, ghost k: nat)
      requires Shown() && k < |blocks| && mList.nodes[k] == chunk
      modifies `blocks, mList.nodes
      ensures Shown() && mList.nodes == old(mList.nodes)
      ensures blocks == old(blocks)[k := old(blocks)[k].(start := old(blocks)[k].start + extra)]
    {
      chunk.start := chunk.start + extra;
      blocks := blocks[k := chunk.View()];
    }

    /** Put a free chunk of `extra` units in front of a chunk, which moves up by as much. */
    method SplitBefore(chunk: Chunk, extra: nat, ghost k: nat) returns (split: Chunk)
      requires Shown() && k < |blocks| && mList.nodes[k] == chunk
      modifies `blocks, mList, mList.nodes
      ensures Shown()
      ensures Inserted(mList.nodes, old(mList.nodes), k, split) && fresh(split)
      ensures blocks == PadBefore(old(blocks), k, extra) && k + 1 < |blocks| && mList.nodes[k + 1] == chunk
      ensures chunk.View() == old(blocks)[k].(start := old(blocks)[k].start + extra)
    {
      hide PadBefore, Inserted, Shown;
      ghost var b := blocks;
      ShownAt(k);
      split := new Chunk(chunk.start, extra);
      assert split !in mList.nodes;
      MoveUp(chunk, extra, k);
      PutBefore(chunk, split, k, PadBefore(b, k, extra));
    }

    method PutBefore(chunk: Chunk, split: Chunk, ghost k: nat, ghost padded: Layout)
      requires Shown() && k < |blocks| && mList.nodes[k] == chunk && split !in mList.nodes
      requires Inserted(padded, blocks, k, split.View())
      modifies `blocks, mList, mList.nodes, split
      ensures Shown() && blocks == padded
      ensures Inserted(mList.nodes, old(mList.nodes), k, split) && k + 1 < |blocks| && mList.nodes[k + 1] == chunk
      ensures chunk.View() == old(blocks)[k]
    {
      hide Inserted, ChunkList.Valid;
      ghost var b, was := blocks, mList.nodes;
      mList.InsertBefore(chunk, split, k);
      blocks := padded;
      ShowsInserted(was, mList.nodes, k, split, b, padded);
    }

    /** Put a free chunk of `rest` units behind a chunk. */
    method SplitAfter(chunk: Chunk, rest: nat, ghost k: nat)
      requires Shown() && k < |blocks| && mList.nodes[k] == chunk
      modifies `blocks, mList, mList.nodes
      ensures Shown()
      ensures blocks == TailAfter(old(blocks), k, rest)
      ensures chunk.View() == old(chunk.View()) && chunk.start == old(chunk.start)
    {
      hide TailAfter, Inserted, ChunkList.Valid;
      ghost var b, was := blocks, mList.nodes;
      var split := new Chunk(chunk.start + chunk.size, rest);
      mList.InsertAfter(chunk, split, k);
      blocks := TailAfter(b, k, rest);
      ShowsInserted(was, mList.nodes, k + 1, split, b, blocks);
    }

    method Dealloc(offset: nat) returns (found: bool)
      requires Valid()
      modifies `blocks, mList, mList.nodes
      ensures Valid() && (forall i :: 0 <= i < |mList.nodes| ==> mList.nodes[i] in old(mList.nodes))
      ensures (blocks, found) == BestFitSpec.Dealloc(old(blocks), offset)
    {
      var start := offset / MEMORY_ALIGN;
      ghost var b := blocks;
      var cur := mList.mFirst;
      ghost var i := 0;
      while cur != null && cur.start != start
        invariant 0 <= i <= |b|
        invariant if i < |b| then cur == mList.nodes[i] else cur == null
        invariant FindStart(b, start, 0) == FindStart(b, start, i)
        decreases |b| - i
        modifies {}
      {
        assert b[i] == cur.View();
        cur := cur.next;
        i := i + 1;
      }
      if cur == null {
        return false;
      }
      assert b[i] == cur.View();
      Release(cur, i);
      return true;
    }

    /** The merging loop of `dealloc`. */
    method Release(chunk: Chunk, ghost k: nat)
      requires Valid() && k < |mList.nodes| && mList.nodes[k] == chunk
      modifies `blocks, mList, mList.nodes
      ensures Valid() && (forall i :: 0 <= i < |mList.nodes| ==> mList.nodes[i] in old(mList.nodes))
      ensures blocks == DeallocAt(old(blocks), k)
    {
      hide Tiles, Shown;
      ghost var b := blocks;
      ShownAt(k);
      BestFitProofs.DeallocKeepsTiles(b, units, k);
      Free(chunk, k);
      var cur: Chunk? := chunk;
      ghost var i: nat := k;
      while cur != null
        invariant Shown() && (forall i :: 0 <= i < |mList.nodes| ==> mList.nodes[i] in old(mList.nodes))
        invariant cur != null ==> i < |blocks| && i < |mList.nodes| && cur == mList.nodes[i]
        invariant DeallocAt(b, k) == if cur != null then MergeFrom(blocks, i) else blocks
        decreases if cur == null then -1 else |blocks| - i
      {
        cur, i := MergeLeft(cur, i);
      }
    }

    method Free(chunk: Chunk, ghost k: nat)
      requires Shown() && k < |blocks| && mList.nodes[k] == chunk
      modifies `blocks, mList.nodes
      ensures Shown() && mList.nodes == old(mList.nodes)
      ensures blocks == old(blocks)[k := old(blocks)[k].(free := true)]
    {
      chunk.free := true;
      blocks := blocks[k := chunk.View()];
    }

    /** One turn of the merging loop: absorb the chunk under the cursor into a left neighbour that is free
        (or if the chunk is empty), and move on if the next chunk is free. */
    method MergeLeft(cur: Chunk, ghost i: nat) returns (after: Chunk?, ghost i': nat)
      requires Shown() && i < |blocks| && mList.nodes[i] == cur
      modifies `blocks, mList, mList.nodes
      ensures Shown() && (forall j :: 0 <= j < |mList.nodes| ==> mList.nodes[j] in old(mList.nodes))
      ensures after != null ==> i' < |blocks| && i' < |mList.nodes| && mList.nodes[i'] == after
      ensures after != null ==> |blocks| - i' < old(|blocks|) - i
      ensures old(MergeFrom(blocks, i)) == if after != null then MergeFrom(blocks, i') else blocks
    {
      var p := cur.prev;
      var n := cur.next;
      if p != null && (p.free || cur.size == 0) {
        Join(p, cur, i);
        i' := i;
      } else {
        i' := i + 1;
      }
      after := if n != null && n.free then n else null;
    }

    method Join(p: Chunk, cur: Chunk, ghost i: nat)
      requires Shown() && 0 < i < |blocks| && mList.nodes[i - 1] == p && mList.nodes[i] == cur
      modifies `blocks, mList, mList.nodes
      ensures Shown() && Removed(mList.nodes, old(mList.nodes), i)
      ensures blocks == Absorb(old(blocks), i)
    {
      hide Absorb;
      p.size := p.size + cur.size;
      mList.Remove(cur, i);
      AbsorbIsRemoval(blocks, i);
      blocks := Absorb(blocks, i);
    }
  }
}
