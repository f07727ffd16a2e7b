/** The allocator: blocks and regions linked by pointers and edited in place, with `mmap` as the
    argument that provides new memory. */
module Malloc {
  import opened HeapModel

  const LARGE_BLOCK_SIZE: nat := 33554432
  const HEADERS: nat := BLOCK_HEADER + REGION_HEADER

  predicate NoFit(cells: seq<Cell>, n: nat) {
    forall i :: 0 <= i < |cells| ==> !Fits(cells[i], n)
  }

  /** First fit takes the earliest region that fits, best fit the earliest of the smallest. */
  predicate Choice(best: bool, cells: seq<Cell>, n: nat, j: nat) {
    && j < |cells| && Fits(cells[j], n)
    && (forall i :: 0 <= i < j && Fits(cells[i], n) ==> best && cells[j].size < cells[i].size)
    && (best ==> forall i :: 0 <= i < |cells| && Fits(cells[i], n) ==> cells[j].size <= cells[i].size)
  }

  function CellsOf(l: Layout, b: nat): seq<Cell> {
    if b in l.blks then l.blks[b].cells else []
  }

  ghost predicate NoFitBefore(l: Layout, list: seq<nat>, n: nat, i: nat) {
    forall k :: 0 <= k < i && k < |list| ==> NoFit(CellsOf(l, list[k]), n)
  }

  /** The search finds region `j` of `b`, the first block of the list with a fit. */
  ghost predicate FoundIn(l: Layout, best: bool, list: seq<nat>, n: nat, b: nat, j: nat) {
    b in l.blks && Choice(best, l.blks[b].cells, n, j) && exists i :: 0 <= i < |list| && list[i] == b && NoFitBefore(l, list, n, i)
  }

  ghost predicate NoFitAnywhere(l: Layout, n: nat) {
    forall b :: b in l.blks ==> NoFit(l.blks[b].cells, n)
  }

  /** No region fits, and no block can be added. */
  ghost predicate NoMemory(l: Layout, n: nat, mapping: nat) {
    NoFitAnywhere(l, n) && (BlockCount(l) == MAX_BLOCKS || KindFor(n) >= 3 || mapping == NULL)
  }

  /** Small blocks are searched before medium ones, medium ones before large ones. */
  ghost predicate Found(l: Layout, best: bool, n: nat, b: nat, j: nat) {
    |l.lists| == 3 &&
    exists k :: 0 <= k < 3 && FoundIn(l, best, l.lists[k], n, b, j) && forall m :: 0 <= m < k ==> NoFitBefore(l, l.lists[m], n, |l.lists[m]|)
  }

  ghost predicate ListsOk(blocks: map<nat, Block>, l: Layout) {
    && |l.lists| == 3
    && (forall k :: 0 <= k < 3 ==> ListLinked(blocks, l.lists[k]) && Distinct(l.lists[k]))
    && (forall k, b :: 0 <= k < 3 ==> (b in l.lists[k] <==> b in l.blks && l.blks[b].kind == k))
  }

  function BlockCount(l: Layout): nat {
    if |l.lists| == 3 then |l.lists[0]| + |l.lists[1]| + |l.lists[2]| else 0
  }

  /** `ALIGN4` with the wrap-around of `size_t`. */
  function Align4(size: nat): nat
    requires 1 <= size
  {
    ((size - 1) / 4 * 4 + 4) % SIZE_LIMIT
  }

  function Rounded(size: nat): nat
    requires 1 <= size
  {
    if Align4(size) > MIN_SIZE then Align4(size) else MIN_SIZE
  }

  /** Rounding up keeps the request except for the last three sizes, which wrap to the least one. */
  lemma RoundingIsExact(size: nat)
    requires 1 <= size < SIZE_LIMIT
    ensures Rounded(size) % 4 == 0 && Rounded(size) >= MIN_SIZE
    ensures Rounded(size) >= size <==> size <= SIZE_LIMIT - 4
    ensures MIN_SIZE <= size <= SIZE_LIMIT - 4 ==> Rounded(size) < size + 4
    ensures size <= 64 || size > SIZE_LIMIT - 4 ==> Rounded(size) == 64
  {
    AlignIs(size);
    hide Align4;
  }

  lemma AlignIs(size: nat)
    requires 1 <= size < SIZE_LIMIT
    ensures Align4(size) % 4 == 0
    ensures size <= SIZE_LIMIT - 4 ==> size <= Align4(size) < size + 4 && (size <= 64 ==> Align4(size) <= 64)
    ensures size > SIZE_LIMIT - 4 ==> Align4(size) == 0
  {}

  /** The kind of block that fits, 3 for none. */
  function KindFor(n: nat): (kind: nat)
    ensures kind < 3 ==> n + HEADERS <= KindSize(kind) && forall k: nat :: k < kind ==> KindSize(k) < n + HEADERS
    ensures kind >= 3 ==> KindSize(2) < n + HEADERS
  {
    if n <= KindSize(0) - HEADERS then 0 else if n <= KindSize(1) - HEADERS then 1 else if n <= LARGE_BLOCK_SIZE - HEADERS then 2 else 3
  }

  /** A new block of one region, in front of its list. */
  function Grown(l: Layout, b: nat, kind: nat): Layout
    requires kind < 3 && |l.lists| == 3
  {
    Layout(l.blks[b := Blk(kind, OneRegion(kind))], l.lists[kind := [b] + l.lists[kind]])
  }

  /** The heap without block `b`. */
  function Unmapped(l: Layout, b: nat): Layout
    requires b in l.blks && l.blks[b].kind < 3 && |l.lists| == 3
  {
    Layout(l.blks - {b}, l.lists[l.blks[b].kind := Removed(l.lists[l.blks[b].kind], b)])
  }

  /** What `free` leaves: the region coalesced, and its block gone when that was all it held. */
  function Returned(l: Layout, b: nat, j: nat): Layout
    requires b in l.blks && j < |l.blks[b].cells| && l.blks[b].kind < 3 && |l.lists| == 3
  {
    var l' := SetCells(l, b, Freed(l.blks[b].cells, j));
    if |l'.blks[b].cells| == 1 then Unmapped(l', b) else l'
  }

  /** The byte at an address; what was never written is 0, as `mmap` provides it. */
  function ByteAt(bytes: map<nat, nat>, a: nat): nat {
    if a in bytes then bytes[a] else 0
  }

  lemma OneByte(bytes: map<nat, nat>, bytes': map<nat, nat>, a: nat, x: nat)
    requires bytes' == bytes[a := x]
    ensures forall c: nat :: ByteAt(bytes', c) == if c == a then x else ByteAt(bytes, c)
  {}

  /** The `n` bytes from `p` are 0 and no other has changed. */
  ghost predicate Cleared(bytes: map<nat, nat>, bytes': map<nat, nat>, p: nat, n: nat) {
    forall a: nat :: ByteAt(bytes', a) == if p <= a < p + n then 0 else ByteAt(bytes, a)
  }

  /** The `n` bytes from `from` are also at `to` and no other has changed. */
  ghost predicate Copied(bytes: map<nat, nat>, bytes': map<nat, nat>, to: nat, from: nat, n: nat) {
    forall a: nat :: ByteAt(bytes', a) == ByteAt(bytes, if to <= a < to + n then from + (a - to) else a)
  }

  /** `bytes` is the memory outside headers, which lies in no header while it is in use. */
  class Heap {
    const bestFit: bool
    var regions: map<nat, Region>
    var blocks: map<nat, Block>
    var smallBlocks: nat
    var mediumBlocks: nat
    var largeBlocks: nat
    var blocksMapped: nat
    var bytes: map<nat, nat>
    ghost var layout: Layout

    /** The pointers form what the layout says. */
    ghost predicate Sound()
      reads this
    {
      && TileInv(regions, layout.blks) && ListsOk(blocks, layout)
      && HeadOf(layout.lists[0]) == smallBlocks && HeadOf(layout.lists[1]) == mediumBlocks && HeadOf(layout.lists[2]) == largeBlocks
      && blocksMapped == BlockCount(layout) <= MAX_BLOCKS
    }

    ghost predicate Valid()
      reads this
    {
      Sound() && NeatInv(layout.blks)
    }

    constructor (bestFit: bool)
      ensures Valid() && layout == Layout(map[], [[], [], []]) && this.bestFit == bestFit
    {
      this.bestFit := bestFit;
      regions, blocks, bytes := map[], map[], map[];
      smallBlocks, mediumBlocks, largeBlocks, blocksMapped := NULL, NULL, NULL, 0;
      layout := Layout(map[], [[], [], []]);
    }

    // -------------------------------------------------------------------------------------------
    // Search

    /** Walks the regions of a block up to the first that fits. */
    method FindFirst(first: nat, n: nat, ghost b: nat) returns (region: nat, ghost j: nat)
      requires TileInv(regions, layout.blks) && b in layout.blks && first == Addr(b, layout.blks[b].cells, 0)
      ensures region == NULL ==> NoFit(layout.blks[b].cells, n)
      ensures region != NULL ==> Choice(false, layout.blks[b].cells, n, j) && region == Addr(b, layout.blks[b].cells, j)
    {
      hide Offset;
      ghost var cells := layout.blks[b].cells;
      assert Tiled(b, layout.blks[b]);
      region, j := first, 0;
      while region != NULL
        invariant j <= |cells| && region == if j < |cells| then Addr(b, cells, j) else NULL
        invariant forall k :: 0 <= k < j ==> !Fits(cells[k], n)
        decreases |cells| - j
      {
        LinkedAt(regions, b, cells, j);
        if regions[region].free && regions[region].size >= n {
          break;
        }
        region := regions[region].next;
        j := j + 1;
      }
    }

    /** Walks all regions of a block for the smallest that fits. */
    method FindBest(first: nat, n: nat, ghost b: nat) returns (best: nat, ghost j: nat)
      requires TileInv(regions, layout.blks) && b in layout.blks && first == Addr(b, layout.blks[b].cells, 0)
      ensures best == NULL ==> NoFit(layout.blks[b].cells, n)
      ensures best != NULL ==> Choice(true, layout.blks[b].cells, n, j) && best == Addr(b, layout.blks[b].cells, j)
    {
      hide Offset;
      ghost var cells := layout.blks[b].cells;
      assert Tiled(b, layout.blks[b]);
      var region := first;
      best, j := NULL, 0;
      ghost var i := 0;
      while region != NULL
        invariant i <= |cells| && region == if i < |cells| then Addr(b, cells, i) else NULL
        invariant best == NULL ==> forall k :: 0 <= k < i ==> !Fits(cells[k], n)
        invariant best != NULL ==> j < i && best == Addr(b, cells, j) && Choice(true, cells[..i], n, j)
        decreases |cells| - i
      {
        LinkedAt(regions, b, cells, i);
        LinkedAt(regions, b, cells, j);
        if regions[region].free && regions[region].size >= n {
          if best == NULL || regions[region].size < regions[best].size {
            best, j := region, i;
          }
        }
        assert forall k :: 0 <= k < i ==> cells[..i + 1][k] == cells[..i][k];
        region := regions[region].next;
        i := i + 1;
      }
      assert cells[..|cells|] == cells;
    }

    method FindInBlock(first: nat, n: nat, ghost b: nat) returns (region: nat, ghost j: nat)
      requires TileInv(regions, layout.blks) && b in layout.blks && first == Addr(b, layout.blks[b].cells, 0)
      ensures region == NULL ==> NoFit(layout.blks[b].cells, n)
      ensures region != NULL ==> Choice(bestFit, layout.blks[b].cells, n, j) && region == Addr(b, layout.blks[b].cells, j)
    {
      if bestFit {
        region, j := FindBest(first, n, b);
      } else {
        region, j := FindFirst(first, n, b);
      }
    }

    /** Walks a list of blocks. */
    method FindInList(head: nat, n: nat, ghost k: nat) returns (region: nat, ghost b: nat, ghost j: nat)
      requires Sound() && k < 3 && head == HeadOf(layout.lists[k])
      ensures region == NULL ==> NoFitBefore(layout, layout.lists[k], n, |layout.lists[k]|)
      ensures region != NULL ==> FoundIn(layout, bestFit, layout.lists[k], n, b, j) && region == Addr(b, layout.blks[b].cells, j)
    {
      hide NoFit, Choice, TileInv, ListsOk, ListLinked, NoFitBefore;
      ThreeLists(blocks, layout);
      ghost var list := layout.lists[k];
      var curr := head;
      ghost var i := 0;
      region, b, j := NULL, 0, 0;
      NoneBefore(layout, list, n);
      if list != [] { ListAt(blocks, layout, k, 0); }
      while curr != NULL
        invariant i <= |list| && curr == (if i < |list| then list[i] else NULL) && (i < |list| ==> list[i] != NULL)
        invariant region == NULL && NoFitBefore(layout, list, n, i)
        decreases |list| - i
      {
        ListAt(blocks, layout, k, i);
        region, j := FindInBlock(curr + BLOCK_HEADER, n, curr);
        b := curr;
        if region != NULL {
          return;
        }
        OneMoreBefore(layout, list, n, i);
        curr := blocks[curr].next;
        i := i + 1;
      }
    }

    method FindFreeRegion(n: nat) returns (region: nat, ghost b: nat, ghost j: nat)
      requires Sound()
      ensures region == NULL <==> NoFitAnywhere(layout, n)
      ensures region != NULL ==> Found(layout, bestFit, n, b, j) && region == Addr(b, layout.blks[b].cells, j)
    {
      hide NoFit, Choice, Offset, TileInv, ListsOk, NoFitBefore, FoundIn, NoFitAnywhere;
      region, b, j := NULL, 0, 0;
      ThreeLists(blocks, layout);
      if n > LARGE_BLOCK_SIZE - HEADERS {
        TooBig(regions, layout, n);
        return;
      }
      region, b, j := FindInList(smallBlocks, n, 0);
      if region == NULL {
        region, b, j := FindInList(mediumBlocks, n, 1);
      }
      if region == NULL {
        region, b, j := FindInList(largeBlocks, n, 2);
      }
      if region == NULL {
        NothingFits(regions, blocks, layout, n);
      } else {
        SomethingFits(regions, layout, bestFit, n, b, j);
      }
    }

    // -------------------------------------------------------------------------------------------
    // Growing and shrinking the heap

    method SizeThatFits(n: nat) returns (size: nat)
      ensures size == if KindFor(n) < 3 then KindSize(KindFor(n)) else 0
    {
      if n <= 16384 - HEADERS {
        size := 16384;
      } else if n <= 1048576 - HEADERS {
        size := 1048576;
      } else if n <= LARGE_BLOCK_SIZE - HEADERS {
        size := LARGE_BLOCK_SIZE;
      } else {
        size := 0;
      }
    }

    /** Maps a new block in front of its list, `mapping` being what `mmap` returns. */
    method GrowHeap(n: nat, mapping: nat) returns (region: nat)
      requires Sound() && (mapping != NULL && KindFor(n) < 3 ==> NewMapping(layout.blks, mapping, KindFor(n)))
      modifies this
      ensures Sound() && bytes == old(bytes)
      ensures region == NULL <==> old(blocksMapped) == MAX_BLOCKS || KindFor(n) >= 3 || mapping == NULL
      ensures region == NULL ==> layout == old(layout)
      ensures region != NULL ==> region == mapping + BLOCK_HEADER && |old(layout.lists)| == 3 && layout == Grown(old(layout), mapping, KindFor(n))
    {
      hide TileInv, ListsOk, KindFor, KindSize, ListLinked;
      if blocksMapped == MAX_BLOCKS {
        return NULL;
      }
      var size := SizeThatFits(n);
      Kinds(n);
      if size == 0 {
        return NULL;
      }
      if mapping == NULL {
        return NULL;
      }
      ghost var kind := KindFor(n);
      ThreeLists(blocks, layout);
      PushOk(blocks, layout, mapping, kind);
      GrowTiled(regions, layout.blks, mapping, kind);
      if size == 16384 {
        AddBlock(mapping, smallBlocks);
        smallBlocks := mapping;
      } else if size == 1048576 {
        AddBlock(mapping, mediumBlocks);
        mediumBlocks := mapping;
      } else {
        AddBlock(mapping, largeBlocks);
        largeBlocks := mapping;
      }
      blocksMapped := blocksMapped + 1;
      region := mapping + BLOCK_HEADER;
      regions := regions[region := Region(true, size - BLOCK_HEADER - REGION_HEADER, NULL, NULL)];
      layout := Grown(layout, mapping, kind);
    }

    /** `new_block->next = head` and the back link. */
    method AddBlock(b: nat, head: nat)
      requires b != NULL && (head != NULL ==> head in blocks && head != b)
      modifies this`blocks
      ensures blocks == Pushed(old(blocks), head, b)
    {
      blocks := blocks[b := Block(head, NULL)];
      if blocks[b].next != NULL {
        blocks := blocks[blocks[b].next := blocks[blocks[b].next].(prev := b)];
      }
    }

    // -------------------------------------------------------------------------------------------
    // Regions

    /** Region `j` of block `b`, as the caller's pointer names it. */
    ghost predicate Names(region: nat, b: nat, j: nat)
      reads this
    {
      b in layout.blks && j < |layout.blks[b].cells| && region == Addr(b, layout.blks[b].cells, j)
    }

    method Split(region: nat, n: nat, ghost b: nat, ghost j: nat)
      requires Sound() && Names(region, b, j)
      modifies this`regions, this`layout
      ensures Sound()
      ensures var cells := old(layout.blks[b].cells);
        layout == if CanSplit(cells, j, n) then SetCells(old(layout), b, SplitCells(cells, j, n)) else old(layout)
    {
      hide TileInv, ListsOk, SplitCells, Offset;
      CellAt(regions, layout, b, j);
      if regions[region].size < n + REGION_HEADER + MIN_SIZE {
        return;
      }
      ghost var before, cells := regions, layout.blks[b].cells;
      if j + 1 < |cells| {
        CellAt(regions, layout, b, j + 1);
        OffsetGrows(cells, j, j + 1);
      }
      SplitTiled(regions, layout.blks, b, j, n);
      var cut := region + REGION_HEADER + n;
      regions := regions[cut := Region(true, regions[region].size - n - REGION_HEADER, regions[region].next, region)];
      if regions[cut].next != NULL {
        regions := regions[regions[cut].next := regions[regions[cut].next].(prev := cut)];
      }
      regions := regions[region := regions[region].(size := n, next := cut)];
      assert regions == SplitRegions(before, region, n);
      layout := SetCells(layout, b, SplitCells(cells, j, n));
      SameLists(blocks, old(layout), b, SplitCells(cells, j, n));
    }

    /** Swallows the next region. */
    method Merge(region: nat, ghost b: nat, ghost j: nat)
      requires Sound() && Names(region, b, j)
      modifies this`regions, this`layout
      ensures Sound()
      ensures var cells := old(layout.blks[b].cells);
        layout == if j + 1 < |cells| then SetCells(old(layout), b, MergeCells(cells, j)) else old(layout)
    {
      hide TileInv, ListsOk, MergeCells, Offset;
      CellAt(regions, layout, b, j);
      if regions[region].next == NULL {
        return;
      }
      ghost var before, cells := regions, layout.blks[b].cells;
      CellAt(regions, layout, b, j + 1);
      OffsetGrows(cells, j, j + 1);
      if j + 2 < |cells| {
        CellAt(regions, layout, b, j + 2);
        OffsetGrows(cells, j, j + 2);
      }
      MergeTiled(regions, layout.blks, b, j);
      var gone := regions[regions[region].next];
      regions := regions[region := regions[region].(size := regions[region].size + REGION_HEADER + gone.size, next := gone.next)];
      if regions[region].next != NULL {
        regions := regions[gone.next := regions[gone.next].(prev := region)];
      }
      assert regions == MergeRegions(before, region);
      layout := SetCells(layout, b, MergeCells(cells, j));
      SameLists(blocks, old(layout), b, MergeCells(cells, j));
    }

    method Coalesce(region: nat, ghost b: nat, ghost j: nat) returns (merged: nat)
      requires Sound() && Names(region, b, j)
      modifies this`regions, this`layout
      ensures Sound() && layout == SetCells(old(layout), b, Coalesced(old(layout.blks[b].cells), j))
      ensures Names(merged, b, Holder(old(layout.blks[b].cells), j))
    {
      hide TileInv, ListsOk, MergeCells, Offset, ListLinked;
      ghost var cells := layout.blks[b].cells;
      ghost var h := Holder(cells, j);
      merged := region;
      CellAt(regions, layout, b, j);
      if j > 0 { CellAt(regions, layout, b, j - 1); }
      if regions[merged].prev != NULL && regions[regions[merged].prev].free {
        merged := regions[region].prev;
        Merge(merged, b, j - 1);
        MergePlace(b, cells, j - 1);
      }
      ghost var left := layout.blks[b].cells;
      CellAt(regions, layout, b, h);
      if h + 1 < |left| { CellAt(regions, layout, b, h + 1); }
      if regions[merged].next != NULL && regions[regions[merged].next].free {
        Merge(merged, b, h);
        MergePlace(b, left, h);
      }
      assert layout.blks[b].cells == Coalesced(cells, j);
      assert layout.blks == SetCells(old(layout), b, Coalesced(cells, j)).blks;
    }

    /** Takes block `b` out of the list its size names, and gives its memory back. */
    method Unmap(b: nat, size: nat)
      requires Sound() && b in layout.blks && size == KindSize(layout.blks[b].kind)
      modifies this
      ensures Sound() && layout.blks == old(layout.blks) - {b} && bytes == old(bytes)
      ensures var k := old(layout.blks[b].kind);
        k < 3 && |old(layout.lists)| == 3 && layout == Unmapped(old(layout), b)
    {
      hide TileInv, ListsOk, ListLinked, KindSize, Removed;
      ghost var kind := layout.blks[b].kind;
      BlockAt(regions, blocks, layout, b);
      RemoveOk(blocks, layout, b);
      UnmapTiled(regions, layout.blks, b);
      var block := blocks[b];
      if block.next != NULL {
        blocks := blocks[block.next := blocks[block.next].(prev := block.prev)];
      }
      if block.prev != NULL {
        blocks := blocks[block.prev := blocks[block.prev].(next := block.next)];
      } else {
        KindBySize(kind);
        if size == 16384 {
          smallBlocks := block.next;
        } else if size == 1048576 {
          mediumBlocks := block.next;
        } else {
          largeBlocks := block.next;
        }
      }
      assert blocks == Unchained(old(blocks), b);
      blocksMapped := blocksMapped - 1;
      layout := Unmapped(layout, b);
    }

    // -------------------------------------------------------------------------------------------
    // The library calls

    /** The region to use: the search's choice, or the only one of a new block when nothing fits. */
    method Obtain(n: nat, mapping: nat) returns (region: nat, ghost b: nat, ghost j: nat)
      requires Valid() && n >= MIN_SIZE && n % 4 == 0
      requires mapping != NULL && KindFor(n) < 3 ==> NewMapping(layout.blks, mapping, KindFor(n))
      modifies this
      ensures Sound() && bytes == old(bytes)
      ensures region == NULL <==> NoFitAnywhere(old(layout), n) && (old(blocksMapped) == MAX_BLOCKS || KindFor(n) >= 3 || mapping == NULL)
      ensures region == NULL ==> layout == old(layout)
      ensures region != NULL ==> Names(region, b, j) && Obtained(old(layout), layout, bestFit, n, mapping, b, j)
    {
      hide TileInv, ListsOk, ListLinked, Found, NoFitAnywhere, KindFor, KindSize, Offset, Neat, NoFreePair, SizesOk, OneRegion;
      ThreeLists(blocks, layout);
      region, b, j := FindFreeRegion(n);
      if region == NULL {
        region := GrowHeap(n, mapping);
        if region == NULL {
          return;
        }
        b, j := mapping, 0;
        NewBlockFits(old(layout), mapping, n);
        GrownOthers(old(layout), mapping, KindFor(n));
      } else {
        SomethingFits(regions, layout, bestFit, n, b, j);
        ChosenIsNeat(layout, b);
      }
    }

    /** Cuts the region to size and marks it in use. */
    method HandOut(region: nat, n: nat, ghost b: nat, ghost j: nat)
      requires Sound() && Names(region, b, j)
      modifies this`regions, this`layout
      ensures Sound() && Names(region, b, j)
      ensures layout == SetCells(old(layout), b, Taken(old(layout.blks[b].cells), j, n))
    {
      hide TileInv, ListsOk, ListLinked, Taken, SplitCells, Offset;
      ghost var base, cells := layout, layout.blks[b].cells;
      Split(region, n, b, j);
      SplitKeepsPlace(b, cells, j, n);
      ghost var cut := layout.blks[b].cells;
      CellAt(regions, layout, b, j);
      MarkTiled(regions, layout.blks, b, j, false);
      SameLists(blocks, layout, b, SetCell(cut, j, Cell(false, cut[j].size)));
      regions := regions[region := regions[region].(free := false)];
      layout := SetCells(layout, b, SetCell(cut, j, Cell(false, cut[j].size)));
      TakenIs(base, layout, b, j, n, cut);
      TakenPlace(b, cells, j, n);
    }

    /** An object for `size` bytes, or the null pointer exactly when the size is 0 or nothing fits and
        no block can be added. */
    method Alloc(size: nat, mapping: nat) returns (p: nat, ghost b: nat, ghost j: nat)
      requires Valid() && size < SIZE_LIMIT
      requires size > 0 && mapping != NULL && KindFor(Rounded(size)) < 3 ==> NewMapping(layout.blks, mapping, KindFor(Rounded(size)))
      modifies this
      ensures Valid() && bytes == old(bytes)
      ensures p == NULL <==> size == 0 || NoMemory(old(layout), Rounded(size), mapping)
      ensures p == NULL ==> layout == old(layout)
      ensures p != NULL ==> p >= REGION_HEADER && Names(p - REGION_HEADER, b, j) && Allocated(old(layout), layout, bestFit, Rounded(size), mapping, b, j)
    {
      hide TileInv, ListsOk, ListLinked, NoFitAnywhere, Taken, KindFor, KindSize, Offset, Neat, NoFreePair, SizesOk, Obtained, NeatInv, Align4;
      p, b, j := NULL, 0, 0;
      if size == 0 {
        return;
      }
      var n := Align4(size);
      n := if n > MIN_SIZE then n else MIN_SIZE;
      RoundingIsExact(size);
      var region: nat;
      region, b, j := Obtain(n, mapping);
      if region == NULL {
        return;
      }
      ghost var base := layout;
      HandOut(region, n, b, j);
      AllocatedNeat(old(layout), base, bestFit, n, mapping, b, j);
      p := region + REGION_HEADER;
    }

    /** Gives an object back; a null pointer or a region that is free already is ignored. */
    method Free(p: nat, ghost b: nat, ghost j: nat)
      requires Valid() && (p != NULL ==> p >= REGION_HEADER && Names(p - REGION_HEADER, b, j))
      modifies this
      ensures Valid() && bytes == old(bytes)
      ensures p == NULL || old(layout.blks[b].cells[j]).free ==> layout == old(layout)
      ensures p != NULL && !old(layout.blks[b].cells[j]).free ==>
        old(layout.blks[b]).kind < 3 && |old(layout.lists)| == 3 && layout == Returned(old(layout), b, j)
    {
      hide TileInv, ListsOk, ListLinked, MergeCells, KindSize, Offset, Neat, Coalesced, Unmapped;
      if p == NULL {
        return;
      }
      var curr := p - REGION_HEADER;
      CellAt(regions, layout, b, j);
      if regions[curr].free {
        return;
      }
      ghost var l0, cells := layout, layout.blks[b].cells;
      FreedNeat(cells, j) by { assert Neat(cells); }
      MarkTiled(regions, layout.blks, b, j, true);
      SameLists(blocks, layout, b, SetCell(cells, j, Cell(true, cells[j].size)));
      MarkedPlace(b, cells, j);
      regions := regions[curr := regions[curr].(free := true)];
      layout := SetCells(layout, b, SetCell(cells, j, Cell(true, cells[j].size)));
      curr := Coalesce(curr, b, j);
      assert layout.blks == SetCells(l0, b, Freed(cells, j)).blks;
      ghost var h := Holder(SetCell(cells, j, Cell(true, cells[j].size)), j);
      ThreeLists(blocks, layout);
      CellAt(regions, layout, b, h);
      if regions[curr].next == NULL && regions[curr].prev == NULL {
        WholeBlock(regions, layout, b);
        var size := regions[curr].size + BLOCK_HEADER + REGION_HEADER;
        Unmap(curr - BLOCK_HEADER, size);
        NeatWithout(l0, b, Freed(cells, j));
      } else {
        NeatAgain(l0, l0, b, Freed(cells, j));
      }
    }

    /** `memset` with 0. */
    method Clear(p: nat, n: nat)
      modifies this`bytes
      ensures Cleared(old(bytes), bytes, p, n)
    {
      for i := 0 to n
        invariant Cleared(old(bytes), bytes, p, i)
      {
        ghost var before := bytes;
        bytes := bytes[p + i := 0];
        OneByte(before, bytes, p + i, 0);
      }
    }

    /** `memcpy` between places that do not overlap. */
    method Copy(to: nat, from: nat, n: nat)
      requires to + n <= from || from + n <= to
      modifies this`bytes
      ensures Copied(old(bytes), bytes, to, from, n)
    {
      for i := 0 to n
        invariant Copied(old(bytes), bytes, to, from, i)
      {
        ghost var before := bytes;
        bytes := bytes[to + i := ByteAt(bytes, from + i)];
        OneByte(before, bytes, to + i, ByteAt(before, from + i));
      }
    }

    /** The product wraps before the allocation. An object is cleared up to the product, which lies
        inside it unless it was rounded over the top. */
    method Calloc(nmemb: nat, size: nat, mapping: nat) returns (p: nat, ghost b: nat, ghost j: nat)
      requires Valid()
      requires mapping != NULL && nmemb * size % SIZE_LIMIT > 0 && KindFor(Rounded(nmemb * size % SIZE_LIMIT)) < 3 ==>
        NewMapping(layout.blks, mapping, KindFor(Rounded(nmemb * size % SIZE_LIMIT)))
      modifies this
      ensures Valid() && (p == NULL ==> layout == old(layout) && bytes == old(bytes))
      ensures p != NULL ==> nmemb * size % SIZE_LIMIT > 0 && p >= REGION_HEADER && Names(p - REGION_HEADER, b, j)
      ensures p != NULL ==> Allocated(old(layout), layout, bestFit, Rounded(nmemb * size % SIZE_LIMIT), mapping, b, j)
      ensures p != NULL ==> Cleared(old(bytes), bytes, p, nmemb * size % SIZE_LIMIT)
      ensures p != NULL ==> (layout.blks[b].cells[j].size >= nmemb * size % SIZE_LIMIT <==> nmemb * size % SIZE_LIMIT <= SIZE_LIMIT - 4)
    {
      hide TileInv, ListsOk, KindFor, Taken, Rounded, NoFitAnywhere, NeatInv, Obtained;
      var n := nmemb * size % SIZE_LIMIT;
      p, b, j := Alloc(n, mapping);
      if p != NULL {
        RoundedSize(n);
        Clear(p, n);
      }
    }

    /** `realloc` to a smaller size cuts the region in place. The heap stays tiled; it stays neat exactly
        when nothing is cut off, or the size is one malloc would have chosen and no free region follows. */
    method ReallocShrink(p: nat, size: nat, ghost b: nat, ghost j: nat)
      requires Valid() && p >= REGION_HEADER && Names(p - REGION_HEADER, b, j)
      requires !layout.blks[b].cells[j].free && 0 < size <= layout.blks[b].cells[j].size
      modifies this`regions, this`layout
      ensures Sound() && Names(p - REGION_HEADER, b, j) && layout.blks[b].cells[j].size >= size && !layout.blks[b].cells[j].free
      ensures var cells := old(layout.blks[b].cells);
        layout == if CanSplit(cells, j, size) then SetCells(old(layout), b, SplitCells(cells, j, size)) else old(layout)
      ensures var cells := old(layout.blks[b].cells);
        Valid() <==> !CanSplit(cells, j, size) || (size >= MIN_SIZE && size % 4 == 0 && (j + 1 < |cells| ==> !cells[j + 1].free))
    {
      hide TileInv, ListsOk, SplitCells, Offset, Neat;
      ghost var l0, cells := layout, layout.blks[b].cells;
      assert Neat(cells);
      Split(p - REGION_HEADER, size, b, j);
      SplitKeepsPlace(b, cells, j, size);
      if CanSplit(cells, j, size) {
        CutCell(cells, j, size);
        ShrunkNeat(cells, j, size);
        NeatExactly(l0, b, SplitCells(cells, j, size));
      }
    }
  }

  /** Region `j` of `b` was chosen, in the heap as it was or in one block more. */
  ghost predicate Obtained(l: Layout, base: Layout, best: bool, n: nat, mapping: nat, b: nat, j: nat) {
    && |l.lists| == 3
    && (if NoFitAnywhere(l, n) then b == mapping && j == 0 && KindFor(n) < 3 && base == Grown(l, mapping, KindFor(n))
        else Found(l, best, n, b, j) && base == l)
    && b in base.blks && j < |base.blks[b].cells| && Fits(base.blks[b].cells[j], n)
    && NoFreePair(base.blks[b].cells) && SizesOk(base.blks[b].cells)
    && (forall c :: c in base.blks && c != b ==> c in l.blks && base.blks[c] == l.blks[c])
  }

  /** The region was handed out, and wastes less than a header and a least region. */
  ghost predicate Allocated(l: Layout, l': Layout, best: bool, n: nat, mapping: nat, b: nat, j: nat) {
    && |l.lists| == 3 && (NoFitAnywhere(l, n) ==> KindFor(n) < 3)
    && var base := if NoFitAnywhere(l, n) then Grown(l, mapping, KindFor(n)) else l;
      && Obtained(l, base, best, n, mapping, b, j)
      && l' == SetCells(base, b, Taken(base.blks[b].cells, j, n))
      && j < |l'.blks[b].cells| && !l'.blks[b].cells[j].free && n <= l'.blks[b].cells[j].size < n + REGION_HEADER + MIN_SIZE
  }

  lemma AllocatedNeat(l: Layout, base: Layout, best: bool, n: nat, mapping: nat, b: nat, j: nat)
    requires NeatInv(l.blks) && Obtained(l, base, best, n, mapping, b, j) && n >= MIN_SIZE && n % 4 == 0
    ensures Allocated(l, SetCells(base, b, Taken(base.blks[b].cells, j, n)), best, n, mapping, b, j)
    ensures NeatInv(SetCells(base, b, Taken(base.blks[b].cells, j, n)).blks)
  {
    hide Taken, Found, NoFitAnywhere, KindFor, Neat, NoFreePair, SizesOk;
    TakenNeat(base.blks[b].cells, j, n);
    NeatAgain(l, base, b, Taken(base.blks[b].cells, j, n));
  }

  lemma GrownOthers(l: Layout, b: nat, kind: nat)
    requires kind < 3 && |l.lists| == 3
    ensures b in Grown(l, b, kind).blks
    ensures forall c :: c in Grown(l, b, kind).blks && c != b ==> c in l.blks && Grown(l, b, kind).blks[c] == l.blks[c]
  {}

  /** The header of a region that the layout has. */
  lemma CellAt(regions: map<nat, Region>, l: Layout, b: nat, j: nat)
    requires TileInv(regions, l.blks) && b in l.blks && j < |l.blks[b].cells|
    ensures Addr(b, l.blks[b].cells, j) in regions && regions[Addr(b, l.blks[b].cells, j)] == HeaderOf(b, l.blks[b].cells, j)
    ensures b > 0 && l.blks[b].kind < 3
    ensures regions[Addr(b, l.blks[b].cells, j)].next == NULL <==> j + 1 == |l.blks[b].cells|
    ensures regions[Addr(b, l.blks[b].cells, j)].prev == NULL <==> j == 0
  {
    assert Tiled(b, l.blks[b]);
    LinkedAt(regions, b, l.blks[b].cells, j);
  }

  lemma SameLists(blocks: map<nat, Block>, l: Layout, b: nat, cells: seq<Cell>)
    requires ListsOk(blocks, l) && b in l.blks
    ensures ListsOk(blocks, SetCells(l, b, cells)) && BlockCount(SetCells(l, b, cells)) == BlockCount(l)
  {
    hide ListLinked, Distinct;
  }

  lemma NoneBefore(l: Layout, list: seq<nat>, n: nat)
    ensures NoFitBefore(l, list, n, 0)
  {}

  lemma OneMoreBefore(l: Layout, list: seq<nat>, n: nat, i: nat)
    requires NoFitBefore(l, list, n, i) && i < |list| && NoFit(CellsOf(l, list[i]), n)
    ensures NoFitBefore(l, list, n, i + 1)
  {}

  lemma ThreeLists(blocks: map<nat, Block>, l: Layout)
    requires ListsOk(blocks, l)
    ensures |l.lists| == 3
  {}

  lemma ListAt(blocks: map<nat, Block>, l: Layout, k: nat, i: nat)
    requires ListsOk(blocks, l) && k < 3 && i < |l.lists[k]|
    ensures var list := l.lists[k];
      list[i] != NULL && list[i] in blocks && blocks[list[i]] == LinksOf(list, i) && list[i] in l.blks && l.blks[list[i]].kind == k
    ensures i + 1 < |l.lists[k]| ==> l.lists[k][i + 1] != NULL
  {
    hide Distinct;
    assert ListLinked(blocks, l.lists[k]);
    assert l.lists[k][i] in l.lists[k];
  }

  lemma TooBig(regions: map<nat, Region>, l: Layout, n: nat)
    requires TileInv(regions, l.blks) && n > LARGE_BLOCK_SIZE - HEADERS
    ensures NoFitAnywhere(l, n)
  {
    forall b | b in l.blks ensures NoFit(l.blks[b].cells, n) {
      assert Tiled(b, l.blks[b]);
      forall i | 0 <= i < |l.blks[b].cells| ensures !Fits(l.blks[b].cells[i], n) {
        FitsTheBlock(b, l.blks[b], i);
      }
    }
  }

  lemma NothingFits(regions: map<nat, Region>, blocks: map<nat, Block>, l: Layout, n: nat)
    requires ListsOk(blocks, l) && TileInv(regions, l.blks)
    requires forall k :: 0 <= k < 3 ==> NoFitBefore(l, l.lists[k], n, |l.lists[k]|)
    ensures NoFitAnywhere(l, n)
  {
    forall b | b in l.blks ensures NoFit(l.blks[b].cells, n) {
      assert Tiled(b, l.blks[b]);
      var list := l.lists[l.blks[b].kind];
      assert b in list;
      var i :| 0 <= i < |list| && list[i] == b;
      assert NoFit(CellsOf(l, list[i]), n);
    }
  }

  lemma SomethingFits(regions: map<nat, Region>, l: Layout, best: bool, n: nat, b: nat, j: nat)
    requires Found(l, best, n, b, j) && TileInv(regions, l.blks)
    ensures !NoFitAnywhere(l, n) && b in l.blks && j < |l.blks[b].cells| && Fits(l.blks[b].cells[j], n)
    ensures Addr(b, l.blks[b].cells, j) != NULL
  {
    assert !NoFit(l.blks[b].cells, n);
    assert Tiled(b, l.blks[b]);
  }

  lemma Kinds(n: nat)
    ensures KindFor(n) == 0 ==> KindSize(KindFor(n)) == 16384
    ensures KindFor(n) == 1 ==> KindSize(KindFor(n)) == 1048576
    ensures KindFor(n) == 2 ==> KindSize(KindFor(n)) == 33554432
  {}

  lemma PushOk(blocks: map<nat, Block>, l: Layout, b: nat, kind: nat)
    requires ListsOk(blocks, l) && kind < 3 && b != NULL && b !in l.blks
    ensures ListsOk(Pushed(blocks, HeadOf(l.lists[kind]), b), Grown(l, b, kind))
    ensures HeadOf(l.lists[kind]) != NULL ==> HeadOf(l.lists[kind]) in blocks && HeadOf(l.lists[kind]) != b
    ensures BlockCount(Grown(l, b, kind)) == BlockCount(l) + 1
  {
    var list, l' := l.lists[kind], Grown(l, b, kind);
    var blocks' := Pushed(blocks, HeadOf(list), b);
    if list != [] { ListAt(blocks, l, kind, 0); }
    forall k | 0 <= k < 3 ensures ListLinked(blocks', l'.lists[k]) && Distinct(l'.lists[k]) {
      PushedLists(blocks, l, b, kind, k);
    }
    hide ListLinked, Distinct, Pushed;
    forall k, c | 0 <= k < 3 ensures c in l'.lists[k] <==> c in l'.blks && l'.blks[c].kind == k {
      assert c in l.lists[k] <==> c in l.blks && l.blks[c].kind == k;
    }
  }

  lemma PushedLists(blocks: map<nat, Block>, l: Layout, b: nat, kind: nat, k: nat)
    requires ListsOk(blocks, l) && kind < 3 && b != NULL && b !in l.blks && k < 3
    ensures var blocks', list' := Pushed(blocks, HeadOf(l.lists[kind]), b), if k == kind then [b] + l.lists[k] else l.lists[k];
      ListLinked(blocks', list') && Distinct(list')
  {
    hide ListLinked, Distinct, Pushed;
    var list := l.lists[kind];
    assert b !in list && b !in l.lists[k];
    if k == kind {
      PushLinked(blocks, list, b);
    } else {
      forall c | c in l.lists[k] ensures c in blocks && c != HeadOf(list) {
        InList(blocks, l, k, c);
        if list != [] { ListAt(blocks, l, kind, 0); }
      }
      PushedElsewhere(blocks, HeadOf(list), b, l.lists[k]);
      OtherList(blocks, Pushed(blocks, HeadOf(list), b), l.lists[k]);
    }
  }

  lemma PushedElsewhere(blocks: map<nat, Block>, head: nat, b: nat, list: seq<nat>)
    requires b !in list && forall c :: c in list ==> c in blocks && c != head
    ensures forall c :: c in list ==> c in Pushed(blocks, head, b) && Pushed(blocks, head, b)[c] == blocks[c]
  {}

  lemma InList(blocks: map<nat, Block>, l: Layout, k: nat, c: nat)
    requires ListsOk(blocks, l) && k < 3 && c in l.lists[k]
    ensures c != NULL && c in blocks && c in l.blks && l.blks[c].kind == k
  {
    assert ListLinked(blocks, l.lists[k]);
    var i :| 0 <= i < |l.lists[k]| && l.lists[k][i] == c;
  }

  lemma MergePlace(b: nat, cells: seq<Cell>, k: nat)
    requires k + 1 < |cells|
    ensures |MergeCells(cells, k)| == |cells| - 1 && Addr(b, MergeCells(cells, k), k) == Addr(b, cells, k)
    ensures MergeCells(cells, k)[k].free == cells[k].free
    ensures k + 1 < |MergeCells(cells, k)| ==> MergeCells(cells, k)[k + 1] == cells[k + 2]
  {
    MergeOffsets(cells, k);
  }

  lemma MarkedPlace(b: nat, cells: seq<Cell>, j: nat)
    requires j < |cells|
    ensures Addr(b, SetCell(cells, j, Cell(true, cells[j].size)), j) == Addr(b, cells, j)
  {
    OffsetPrefix(cells, SetCell(cells, j, Cell(true, cells[j].size)), j);
  }

  lemma TakenPlace(b: nat, cells: seq<Cell>, j: nat, n: nat)
    requires j < |cells|
    ensures j < |Taken(cells, j, n)| && Addr(b, Taken(cells, j, n), j) == Addr(b, cells, j)
  {
    OffsetPrefix(cells, Taken(cells, j, n), j);
  }

  lemma SplitKeepsPlace(b: nat, cells: seq<Cell>, j: nat, n: nat)
    requires j < |cells|
    ensures var cut := if CanSplit(cells, j, n) then SplitCells(cells, j, n) else cells;
      j < |cut| && Addr(b, cut, j) == Addr(b, cells, j)
  {
    if CanSplit(cells, j, n) { SplitOffsets(cells, j, n); }
  }

  lemma TakenIs(base: Layout, l: Layout, b: nat, j: nat, n: nat, cut: seq<Cell>)
    requires b in base.blks && j < |base.blks[b].cells|
    requires cut == if CanSplit(base.blks[b].cells, j, n) then SplitCells(base.blks[b].cells, j, n) else base.blks[b].cells
    requires b in l.blks && j < |cut| && l.lists == base.lists
    requires l.blks == base.blks[b := Blk(base.blks[b].kind, SetCell(cut, j, Cell(false, cut[j].size)))]
    ensures l == SetCells(base, b, Taken(base.blks[b].cells, j, n))
  {}

  /** All other blocks were neat, and this one is. */
  lemma NeatAgain(l: Layout, base: Layout, b: nat, cells: seq<Cell>)
    requires NeatInv(l.blks) && b in base.blks && Neat(cells)
    requires forall c :: c in base.blks && c != b ==> c in l.blks && base.blks[c] == l.blks[c]
    ensures NeatInv(SetCells(base, b, cells).blks)
  {}

  lemma NeatWithout(l: Layout, b: nat, cells: seq<Cell>)
    requires NeatInv(l.blks) && b in l.blks
    ensures NeatInv(SetCells(l, b, cells).blks - {b})
  {}

  lemma ChosenIsNeat(l: Layout, b: nat)
    requires NeatInv(l.blks) && b in l.blks
    ensures NoFreePair(l.blks[b].cells) && SizesOk(l.blks[b].cells)
  {}

  lemma NewBlockFits(l: Layout, b: nat, n: nat)
    requires KindFor(n) < 3 && |l.lists| == 3
    ensures var cells := Grown(l, b, KindFor(n)).blks[b].cells;
      NoFreePair(cells) && SizesOk(cells) && |cells| == 1 && Fits(cells[0], n) && Addr(b, cells, 0) == b + BLOCK_HEADER
  {}

  lemma KindBySize(kind: nat)
    requires kind < 3
    ensures KindSize(kind) == 16384 <==> kind == 0
    ensures KindSize(kind) == 1048576 <==> kind == 1
  {}

  lemma WholeBlock(regions: map<nat, Region>, l: Layout, b: nat)
    requires TileInv(regions, l.blks) && b in l.blks && |l.blks[b].cells| == 1
    ensures l.blks[b].cells[0].size + BLOCK_HEADER + REGION_HEADER == KindSize(l.blks[b].kind)
    ensures Addr(b, l.blks[b].cells, 0) == b + BLOCK_HEADER
  {
    assert Tiled(b, l.blks[b]);
    LoneRegion(b, l.blks[b]);
  }

  /** A block is in the list of its kind, with links that stay inside it. */
  lemma BlockAt(regions: map<nat, Region>, blocks: map<nat, Block>, l: Layout, b: nat)
    requires TileInv(regions, l.blks) && ListsOk(blocks, l) && b in l.blks
    ensures |l.lists| == 3 && l.blks[b].kind < 3 && b in l.lists[l.blks[b].kind] && b in blocks
    ensures blocks[b].next != b && blocks[b].prev != b && (blocks[b].next != NULL ==> blocks[b].next in blocks && blocks[b].next != blocks[b].prev)
    ensures blocks[b].prev != NULL ==> blocks[b].prev in blocks
  {
    assert Tiled(b, l.blks[b]);
    var k := l.blks[b].kind;
    var list := l.lists[k];
    assert b in list;
    var i :| 0 <= i < |list| && list[i] == b;
    ListAt(blocks, l, k, i);
    assert Distinct(list);
    if i + 1 < |list| { ListAt(blocks, l, k, i + 1); DistinctAt(list, i, i + 1); }
    if i > 0 { ListAt(blocks, l, k, i - 1); DistinctAt(list, i, i - 1); }
    if i > 0 && i + 1 < |list| { DistinctAt(list, i - 1, i + 1); }
  }

  lemma RemoveOk(blocks: map<nat, Block>, l: Layout, b: nat)
    requires ListsOk(blocks, l) && b in l.blks && l.blks[b].kind < 3 && b in blocks
    ensures ListsOk(Unchained(blocks, b), Unmapped(l, b)) && BlockCount(Unmapped(l, b)) == BlockCount(l) - 1
    ensures HeadOf(Unmapped(l, b).lists[l.blks[b].kind]) == if blocks[b].prev == NULL then blocks[b].next else HeadOf(l.lists[l.blks[b].kind])
  {
    hide ListLinked, Distinct, Unchained;
    var k := l.blks[b].kind;
    var list, l' := l.lists[k], Unmapped(l, b);
    assert b in list;
    var i :| 0 <= i < |list| && list[i] == b;
    RemovedAt(list, i);
    RemoveLinked(blocks, list, i);
    forall m | 0 <= m < 3 ensures ListLinked(Unchained(blocks, b), l'.lists[m]) && Distinct(l'.lists[m]) {
      if m != k {
        forall c | c in l.lists[m] ensures c in Unchained(blocks, b) && (c in blocks ==> Unchained(blocks, b)[c] == blocks[c]) {
          Untouched(blocks, l, b, k, i, m, c);
        }
        OtherList(blocks, Unchained(blocks, b), l.lists[m]);
      }
    }
    forall m, c | 0 <= m < 3 ensures c in l'.lists[m] <==> c in l'.blks && l'.blks[c].kind == m {
      assert c in l.lists[m] <==> c in l.blks && l.blks[c].kind == m;
      if m == k { InWithout(list, i, c); }
    }
  }

  lemma InWithout(list: seq<nat>, i: nat, c: nat)
    requires Distinct(list) && i < |list|
    ensures c in Without(list, i) <==> c in list && c != list[i]
  {
    if c in list && c != list[i] {
      var o :| 0 <= o < |list| && list[o] == c;
      WithoutLinks(list, i, o);
    }
    if c in Without(list, i) {
      var o :| 0 <= o < |Without(list, i)| && Without(list, i)[o] == c;
      assert c == list[if o < i then o else o + 1];
    }
  }

  lemma Untouched(blocks: map<nat, Block>, l: Layout, b: nat, k: nat, i: nat, m: nat, c: nat)
    requires ListsOk(blocks, l) && k < 3 && m < 3 && m != k && i < |l.lists[k]| && l.lists[k][i] == b && b in blocks && c in l.lists[m]
    ensures c in Unchained(blocks, b) && c in blocks && Unchained(blocks, b)[c] == blocks[c]
  {
    InList(blocks, l, m, c);
    ListAt(blocks, l, k, i);
    if i + 1 < |l.lists[k]| { ListAt(blocks, l, k, i + 1); }
    if i > 0 { ListAt(blocks, l, k, i - 1); }
    hide ListsOk;
  }

  lemma RoundedSize(n: nat)
    requires 1 <= n < SIZE_LIMIT
    ensures n <= SIZE_LIMIT - 4 ==> Rounded(n) >= n
    ensures n > SIZE_LIMIT - 4 ==> Rounded(n) == MIN_SIZE
  {}

  lemma CutCell(cells: seq<Cell>, j: nat, n: nat)
    requires CanSplit(cells, j, n)
    ensures j < |SplitCells(cells, j, n)| && SplitCells(cells, j, n)[j] == Cell(cells[j].free, n)
  {}

  lemma ShrunkNeat(cells: seq<Cell>, j: nat, n: nat)
    requires Neat(cells) && CanSplit(cells, j, n) && !cells[j].free
    ensures Neat(SplitCells(cells, j, n)) <==> n >= MIN_SIZE && n % 4 == 0 && (j + 1 < |cells| ==> !cells[j + 1].free)
  {
    var after := SplitCells(cells, j, n);
    assert after[j] == Cell(false, n) && after[j + 1] == Cell(true, cells[j].size - n - REGION_HEADER);
    if j + 1 < |cells| && cells[j + 1].free {
      assert after[j + 2] == cells[j + 1] && after[j + 1].free;
    } else if n >= MIN_SIZE && n % 4 == 0 {
      forall i | 0 <= i && i + 1 < |after| ensures !(after[i].free && after[i + 1].free) {
        if i < j { assert !(cells[i].free && cells[i + 1].free); }
        if i > j + 1 { assert !(cells[i - 1].free && cells[i].free); }
      }
    }
  }

  lemma NeatExactly(l: Layout, b: nat, cells: seq<Cell>)
    requires NeatInv(l.blks) && b in l.blks
    ensures NeatInv(SetCells(l, b, cells).blks) <==> Neat(cells)
  {
    var blks' := SetCells(l, b, cells).blks;
    assert b in blks' && blks'[b].cells == cells;
  }

  // ---------------------------------------------------------------------------------------------
  // What the calls mean for the objects in use

  /** Objects in use never overlap. */
  lemma ObjectsDisjoint(regions: map<nat, Region>, l: Layout, a: nat, s: nat, a': nat, s': nat, x: nat)
    requires TileInv(regions, l.blks) && Live(l, a, s) && Live(l, a', s') && a <= x < a + s && a' <= x < a' + s'
    ensures a == a' && s == s'
  {
    var b :| b in l.blks && LiveIn(b, l.blks[b].cells, a, s);
    var i :| LiveAt(b, l.blks[b].cells, i, a, s);
    var c :| c in l.blks && LiveIn(c, l.blks[c].cells, a', s');
    var j :| LiveAt(c, l.blks[c].cells, j, a', s');
    assert InPayload(l, b, i, x) && InPayload(l, c, j, x);
    RegionsDisjoint(regions, l, b, i, c, j, x);
  }

  /** malloc adds one object, of at least the request, and leaves every other where it was. */
  lemma AllocAddsOne(l: Layout, l': Layout, best: bool, n: nat, mapping: nat, b: nat, j: nat, a: nat, s: nat)
    requires Allocated(l, l', best, n, mapping, b, j) && (NoFitAnywhere(l, n) ==> mapping !in l.blks)
    ensures var cells := l'.blks[b].cells;
      Live(l', a, s) <==> Live(l, a, s) || (a == Addr(b, cells, j) + REGION_HEADER && s == cells[j].size)
  {
    hide NoFitAnywhere, Found, Taken, LiveIn, Offset, KindFor, NoFreePair, SizesOk;
    var base := if NoFitAnywhere(l, n) then Grown(l, mapping, KindFor(n)) else l;
    var cells := base.blks[b].cells;
    SetCellsLive(base, b, Taken(cells, j, n), a, s);
    SetCellsLive(base, b, cells, a, s);
    TakenLive(b, cells, j, n, a, s);
    TakenPlace(b, cells, j, n);
    assert SetCells(base, b, cells) == base;
    if NoFitAnywhere(l, n) {
      GrownLive(l, mapping, KindFor(n), a, s);
    }
  }

  lemma GrownLive(l: Layout, b: nat, kind: nat, a: nat, s: nat)
    requires kind < 3 && |l.lists| == 3 && b !in l.blks
    ensures Live(Grown(l, b, kind), a, s) <==> Live(l, a, s)
  {
    var l' := Grown(l, b, kind);
    assert !LiveIn(b, OneRegion(kind), a, s) by {
      forall i: nat ensures !LiveAt(b, OneRegion(kind), i, a, s) {}
    }
    hide LiveIn;
    if Live(l, a, s) {
      var c :| c in l.blks && LiveIn(c, l.blks[c].cells, a, s);
      assert c in l'.blks && LiveIn(c, l'.blks[c].cells, a, s);
    }
    if Live(l', a, s) {
      var c :| c in l'.blks && LiveIn(c, l'.blks[c].cells, a, s);
      assert c in l.blks && LiveIn(c, l.blks[c].cells, a, s);
    }
  }

  /** free removes exactly the object it is given. */
  lemma FreeRemovesOne(regions: map<nat, Region>, l: Layout, b: nat, j: nat, a: nat, s: nat)
    requires TileInv(regions, l.blks) && NeatInv(l.blks) && |l.lists| == 3
    requires b in l.blks && j < |l.blks[b].cells| && !l.blks[b].cells[j].free && l.blks[b].kind < 3
    ensures Live(Returned(l, b, j), a, s) <==> Live(l, a, s) && a != Addr(b, l.blks[b].cells, j) + REGION_HEADER
  {
    hide TileInv, LiveIn, Offset, Coalesced, Removed, NoFreePair, SizesOk;
    var cells := l.blks[b].cells;
    var p, freed := Addr(b, cells, j) + REGION_HEADER, Freed(cells, j);
    assert Neat(cells);
    FreedNeat(cells, j);
    SetCellsLive(l, b, freed, a, s);
    SetCellsLive(l, b, cells, a, s);
    assert SetCells(l, b, cells) == l;
    FreedLive(b, cells, j, a, s);
    forall c | c in l.blks && c != b && LiveIn(c, l.blks[c].cells, a, s) ensures a != p {
      NotInBoth(regions, l, b, j, c, a, s);
    }
    if |freed| == 1 {
      LoneFree(b, cells, j, a, s);
      UnmappedLive(SetCells(l, b, freed), b, a, s);
    }
  }

  lemma NotInBoth(regions: map<nat, Region>, l: Layout, b: nat, j: nat, c: nat, a: nat, s: nat)
    requires TileInv(regions, l.blks) && NeatInv(l.blks)
    requires b in l.blks && j < |l.blks[b].cells| && c in l.blks && c != b && LiveIn(c, l.blks[c].cells, a, s)
    ensures a != Addr(b, l.blks[b].cells, j) + REGION_HEADER
  {
    assert Neat(l.blks[b].cells) && Neat(l.blks[c].cells);
    var i :| LiveAt(c, l.blks[c].cells, i, a, s);
    assert InPayload(l, c, i, a);
    if a == Addr(b, l.blks[b].cells, j) + REGION_HEADER {
      assert InPayload(l, b, j, a);
      RegionsDisjoint(regions, l, b, j, c, i, a);
    }
  }

  lemma LoneFree(b: nat, cells: seq<Cell>, j: nat, a: nat, s: nat)
    requires Neat(cells) && j < |cells| && !cells[j].free && |Freed(cells, j)| == 1
    ensures !LiveIn(b, Freed(cells, j), a, s)
  {
    FreedNeat(cells, j);
    assert Freed(cells, j)[0].free;
    forall i: nat ensures !LiveAt(b, Freed(cells, j), i, a, s) {}
  }

  lemma UnmappedLive(l: Layout, b: nat, a: nat, s: nat)
    requires b in l.blks && l.blks[b].kind < 3 && |l.lists| == 3 && !LiveIn(b, l.blks[b].cells, a, s)
    ensures Live(Unmapped(l, b), a, s) <==> Live(l, a, s)
  {
    hide LiveIn, Removed;
    var l' := Unmapped(l, b);
    if Live(l, a, s) {
      var c :| c in l.blks && LiveIn(c, l.blks[c].cells, a, s);
      assert c in l'.blks && LiveIn(c, l'.blks[c].cells, a, s);
    }
    if Live(l', a, s) {
      var c :| c in l'.blks && LiveIn(c, l'.blks[c].cells, a, s);
      assert c in l.blks && LiveIn(c, l.blks[c].cells, a, s);
    }
  }
}
