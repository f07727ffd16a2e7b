/** Changing the size of an object: in place, into its neighbours, or by moving it. */
module Realloc {
  import opened HeapModel
  import opened Malloc

  /** What the source does with an object that has to grow. */
  datatype Path = Faults | IntoNext | IntoPrevious | IntoBoth | Moves

  predicate NextFree(cells: seq<Cell>, j: nat) {
    j + 1 < |cells| && cells[j + 1].free
  }

  predicate PreviousFree(cells: seq<Cell>, j: nat) {
    0 < j <= |cells| && cells[j - 1].free
  }

  /** The size of a free neighbour with its header. */
  function Room(cells: seq<Cell>, j: nat): nat {
    (if NextFree(cells, j) then cells[j + 1].size + REGION_HEADER else 0) + (if PreviousFree(cells, j) then cells[j - 1].size + REGION_HEADER else 0)
  }

  /** The size of the region before counts in the test for the one after. */
  predicate WithPrevious(cells: seq<Cell>, j: nat, size: nat) {
    0 < j < |cells| && cells[j].size + cells[j - 1].size + REGION_HEADER >= size
  }

  function PathFor(cells: seq<Cell>, j: nat, size: nat): Path
    requires j < |cells|
  {
    if NextFree(cells, j) && j == 0 then Faults
    else if NextFree(cells, j) && WithPrevious(cells, j, size) then IntoNext
    else if PreviousFree(cells, j) && WithPrevious(cells, j, size) then IntoPrevious
    else if cells[j].size + Room(cells, j) >= size then IntoBoth
    else Moves
  }

  /** When growing does what it should: the object moves, or the free region after it is taken in and
      is large enough. */
  predicate GrowsWell(cells: seq<Cell>, j: nat, size: nat) {
    j < |cells| &&
    (PathFor(cells, j, size).Moves? || (PathFor(cells, j, size).IntoNext? && cells[j].size + REGION_HEADER + cells[j + 1].size >= size))
  }

  function Cut(cells: seq<Cell>, j: nat, n: nat): seq<Cell> {
    if CanSplit(cells, j, n) then SplitCells(cells, j, n) else cells
  }

  /** The regions after growing in place. */
  function Widened(cells: seq<Cell>, j: nat, size: nat): seq<Cell>
    requires j < |cells| && size > cells[j].size
  {
    match PathFor(cells, j, size)
    case IntoNext => Cut(MergeCells(cells, j), j, size)
    case IntoPrevious => Cut(MergeCells(cells, j - 1), j - 1, size)
    case IntoBoth => Cut(MergeCells(MergeCells(cells, j - 1), j - 1), j - 1, size)
    case _ => cells
  }

  // ---------------------------------------------------------------------------------------------
  // The objects in use

  /** The object at `p` has become one of at least `size` bytes at `r`, and no other has changed. */
  ghost predicate Served(l: Layout, l': Layout, p: nat, r: nat, size: nat) {
    exists s: nat :: s >= size && Replaced(l, l', p, r, s)
  }

  ghost predicate Replaced(l: Layout, l': Layout, p: nat, r: nat, s: nat) {
    forall a, t :: Live(l', a, t) <==> (Live(l, a, t) && a != p) || (a == r && t == s)
  }

  /** The objects at a region's place: its own if it is in use. */
  lemma OneAt(regions: map<nat, Region>, l: Layout, b: nat, i: nat, t: nat)
    requires TileInv(regions, l.blks) && b in l.blks && i < |l.blks[b].cells|
    ensures Live(l, Addr(b, l.blks[b].cells, i) + REGION_HEADER, t) <==> !l.blks[b].cells[i].free && t == l.blks[b].cells[i].size
  {
    hide TileInv, Offset;
    var cells := l.blks[b].cells;
    var a := Addr(b, cells, i) + REGION_HEADER;
    if !cells[i].free && t == cells[i].size {
      assert LiveAt(b, cells, i, a, t);
    }
    if Live(l, a, t) {
      var c :| c in l.blks && LiveIn(c, l.blks[c].cells, a, t);
      var k :| LiveAt(c, l.blks[c].cells, k, a, t);
      assert InHeader(l, b, i, a - 1) && InHeader(l, c, k, a - 1);
      RegionsDisjoint(regions, l, b, i, c, k, a - 1);
    }
  }

  lemma MergeElsewhere(b: nat, cells: seq<Cell>, k: nat, a: nat, t: nat)
    requires k + 1 < |cells| && cells[k + 1].free && a != Addr(b, cells, k) + REGION_HEADER
    ensures LiveIn(b, MergeCells(cells, k), a, t) <==> LiveIn(b, cells, a, t)
  {
    var after := MergeCells(cells, k);
    MergeOffsets(cells, k);
    MergedCells(cells, k);
    hide Offset, MergeCells;
    forall i: nat | LiveAt(b, cells, i, a, t) ensures LiveIn(b, after, a, t) {
      assert LiveAt(b, after, if i < k then i else i - 1, a, t);
    }
    forall i: nat | LiveAt(b, after, i, a, t) ensures LiveIn(b, cells, a, t) {
      assert LiveAt(b, cells, if i < k then i else i + 1, a, t);
    }
  }

  lemma CutElsewhere(b: nat, cells: seq<Cell>, j: nat, n: nat, a: nat, t: nat)
    requires j < |cells| && a != Addr(b, cells, j) + REGION_HEADER
    ensures LiveIn(b, Cut(cells, j, n), a, t) <==> LiveIn(b, cells, a, t)
  {
    hide Offset;
    if CanSplit(cells, j, n) {
      var after := SplitCells(cells, j, n);
      SplitOffsets(cells, j, n);
      forall i: nat | LiveAt(b, cells, i, a, t) ensures LiveIn(b, after, a, t) {
        assert LiveAt(b, after, if i < j then i else i + 1, a, t);
      }
      forall i: nat | LiveAt(b, after, i, a, t) ensures LiveIn(b, cells, a, t) {
        assert LiveAt(b, cells, if i < j then i else i - 1, a, t);
      }
    }
  }

  /** Region `j` of block `b` changed in place: the object there is served exactly when it is in use
      and large enough. */
  lemma InPlace(regions: map<nat, Region>, l: Layout, b: nat, j: nat, cells': seq<Cell>, regions': map<nat, Region>, size: nat)
    requires TileInv(regions, l.blks) && b in l.blks && j < |l.blks[b].cells| && j < |cells'|
    requires TileInv(regions', SetCells(l, b, cells').blks) && Addr(b, cells', j) == Addr(b, l.blks[b].cells, j)
    requires forall a, t :: a != Addr(b, cells', j) + REGION_HEADER ==> (LiveIn(b, cells', a, t) <==> LiveIn(b, l.blks[b].cells, a, t))
    ensures var p := Addr(b, cells', j) + REGION_HEADER;
      Served(l, SetCells(l, b, cells'), p, p, size) <==> !cells'[j].free && cells'[j].size >= size
  {
    hide TileInv, Offset, LiveIn, Live;
    var l', p := SetCells(l, b, cells'), Addr(b, cells', j) + REGION_HEADER;
    forall a, t ensures a != p ==> (Live(l', a, t) <==> Live(l, a, t)) {
      SetCellsLive(l, b, cells', a, t);
      SetCellsLive(l, b, l.blks[b].cells, a, t);
      assert SetCells(l, b, l.blks[b].cells) == l;
    }
    forall t: nat ensures Live(l', p, t) <==> !cells'[j].free && t == cells'[j].size {
      OneAt(regions', l', b, j, t);
    }
    if !cells'[j].free && cells'[j].size >= size {
      assert Replaced(l, l', p, p, cells'[j].size);
    }
    if Served(l, l', p, p, size) {
      var s: nat :| s >= size && Replaced(l, l', p, p, s);
      assert Live(l', p, s);
    }
  }

  /** Cutting an object's region keeps it served. */
  lemma ShrinkServes(regions: map<nat, Region>, l: Layout, b: nat, j: nat, regions': map<nat, Region>, size: nat)
    requires TileInv(regions, l.blks) && b in l.blks && j < |l.blks[b].cells| && !l.blks[b].cells[j].free && size <= l.blks[b].cells[j].size
    requires TileInv(regions', SetCells(l, b, Cut(l.blks[b].cells, j, size)).blks)
    ensures var p := Addr(b, l.blks[b].cells, j) + REGION_HEADER; Served(l, SetCells(l, b, Cut(l.blks[b].cells, j, size)), p, p, size)
  {
    hide TileInv, Offset, LiveIn, Live, Served;
    var cells := l.blks[b].cells;
    var cells' := Cut(cells, j, size);
    SplitKeepsPlace(b, cells, j, size);
    forall a, t | a != Addr(b, cells', j) + REGION_HEADER ensures LiveIn(b, cells', a, t) <==> LiveIn(b, cells, a, t) {
      CutElsewhere(b, cells, j, size, a, t);
    }
    InPlace(regions, l, b, j, cells', regions', size);
  }

  /** The path into the next region serves exactly when that region is large enough. */
  lemma NextServes(regions: map<nat, Region>, l: Layout, b: nat, j: nat, regions': map<nat, Region>, size: nat)
    requires TileInv(regions, l.blks) && b in l.blks && j < |l.blks[b].cells| && !l.blks[b].cells[j].free && NextFree(l.blks[b].cells, j)
    requires TileInv(regions', SetCells(l, b, Cut(MergeCells(l.blks[b].cells, j), j, size)).blks)
    ensures var cells, p := l.blks[b].cells, Addr(b, l.blks[b].cells, j) + REGION_HEADER;
      Served(l, SetCells(l, b, Cut(MergeCells(cells, j), j, size)), p, p, size) <==> cells[j].size + REGION_HEADER + cells[j + 1].size >= size
  {
    var cells := l.blks[b].cells;
    var merged := MergeCells(cells, j);
    var cells' := Cut(merged, j, size);
    MergePlace(b, cells, j);
    SplitKeepsPlace(b, merged, j, size);
    assert merged[j] == Cell(false, cells[j].size + REGION_HEADER + cells[j + 1].size);
    assert !cells'[j].free && cells'[j].size == if CanSplit(merged, j, size) then size else merged[j].size;
    hide TileInv, Offset, LiveIn, Live, Served, MergeCells, Cut;
    forall a, t | a != Addr(b, cells', j) + REGION_HEADER ensures LiveIn(b, cells', a, t) <==> LiveIn(b, cells, a, t) {
      CutElsewhere(b, merged, j, size, a, t);
      MergeElsewhere(b, cells, j, a, t);
    }
    InPlace(regions, l, b, j, cells', regions', size);
  }

  /** A result in the region before never serves: either that region is still marked free, or it was
      another object, smaller than the request, and is lost. */
  lemma PreviousFails(regions: map<nat, Region>, l: Layout, b: nat, k: nat, cells': seq<Cell>, regions': map<nat, Region>, p: nat, size: nat)
    requires TileInv(regions, l.blks) && b in l.blks && k < |l.blks[b].cells| && k < |cells'| && cells'[k].free == l.blks[b].cells[k].free
    requires TileInv(regions', SetCells(l, b, cells').blks) && Addr(b, cells', k) == Addr(b, l.blks[b].cells, k)
    requires p != Addr(b, cells', k) + REGION_HEADER && (l.blks[b].cells[k].free || l.blks[b].cells[k].size < size)
    ensures !Served(l, SetCells(l, b, cells'), p, Addr(b, cells', k) + REGION_HEADER, size)
  {
    hide TileInv, Offset, Live;
    var l', r, cells := SetCells(l, b, cells'), Addr(b, cells', k) + REGION_HEADER, l.blks[b].cells;
    forall s: nat | s >= size ensures !Replaced(l, l', p, r, s) {
      OneAt(regions', l', b, k, s);
      OneAt(regions', l', b, k, cells[k].size);
      OneAt(regions, l, b, k, cells[k].size);
      assert Live(l', r, s) && cells'[k].size == s ==> (Live(l', r, cells[k].size) <==> !cells'[k].free && cells[k].size == s);
    }
  }

  /** Allocating, and then freeing the old object, serves. */
  lemma MoveServes(l: Layout, l1: Layout, regions1: map<nat, Region>, best: bool, n: nat, mapping: nat, b: nat, j: nat, c: nat, i: nat, size: nat)
    requires Allocated(l, l1, best, n, mapping, b, j) && (NoFitAnywhere(l, n) ==> mapping !in l.blks) && n >= size
    requires TileInv(regions1, l1.blks) && NeatInv(l1.blks) && |l1.lists| == 3
    requires c in l1.blks && i < |l1.blks[c].cells| && !l1.blks[c].cells[i].free && l1.blks[c].kind < 3 && l1.blks[c].cells[i].size < size
    ensures var p, r := Addr(c, l1.blks[c].cells, i) + REGION_HEADER, Addr(b, l1.blks[b].cells, j) + REGION_HEADER;
      Served(l, Returned(l1, c, i), p, r, size) && r != p
  {
    hide NoFitAnywhere, Obtained, TileInv, NeatInv, Live, Taken, Returned;
    var p, r := Addr(c, l1.blks[c].cells, i) + REGION_HEADER, Addr(b, l1.blks[b].cells, j) + REGION_HEADER;
    OneAt(regions1, l1, b, j, l1.blks[b].cells[j].size);
    OneAt(regions1, l1, c, i, l1.blks[b].cells[j].size);
    assert r != p;
    var s := l1.blks[b].cells[j].size;
    forall a, t ensures Live(Returned(l1, c, i), a, t) <==> (Live(l, a, t) && a != p) || (a == r && t == s) {
      AllocAddsOne(l, l1, best, n, mapping, b, j, a, t);
      FreeRemovesOne(regions1, l1, c, i, a, t);
    }
    assert Replaced(l, Returned(l1, c, i), p, r, s);
  }

  // ---------------------------------------------------------------------------------------------
  // The call

  /** The header of an object in use, found again after other regions have changed. */
  lemma FindAgain(l: Layout, p: nat, s: nat) returns (c: nat, i: nat)
    requires Live(l, p, s)
    ensures c in l.blks && i < |l.blks[c].cells| && p == Addr(c, l.blks[c].cells, i) + REGION_HEADER
    ensures !l.blks[c].cells[i].free && l.blks[c].cells[i].size == s
  {
    c :| c in l.blks && LiveIn(c, l.blks[c].cells, p, s);
    i :| LiveAt(c, l.blks[c].cells, i, p, s);
  }

  /** The new object and the old one do not overlap. */
  lemma NewIsApart(regions: map<nat, Region>, l: Layout, b: nat, j: nat, c: nat, i: nat)
    requires TileInv(regions, l.blks) && b in l.blks && j < |l.blks[b].cells| && c in l.blks && i < |l.blks[c].cells|
    requires l.blks[b].cells[j].size > l.blks[c].cells[i].size
    ensures var r, p := Addr(b, l.blks[b].cells, j) + REGION_HEADER, Addr(c, l.blks[c].cells, i) + REGION_HEADER;
      r + l.blks[c].cells[i].size <= p || p + l.blks[c].cells[i].size <= r
  {
    hide TileInv, Offset;
    var r, p, s := Addr(b, l.blks[b].cells, j) + REGION_HEADER, Addr(c, l.blks[c].cells, i) + REGION_HEADER, l.blks[c].cells[i].size;
    if r < p + s && p < r + s {
      var x := if r < p then p else r;
      assert InPayload(l, b, j, x) && InPayload(l, c, i, x);
      RegionsDisjoint(regions, l, b, j, c, i, x);
    }
  }

  /** malloc, copy and free. */
  method Move(h: Heap, p: nat, size: nat, mapping: nat, ghost b: nat, ghost j: nat) returns (r: nat)
    requires h.Valid() && p >= REGION_HEADER && h.Names(p - REGION_HEADER, b, j) && !h.layout.blks[b].cells[j].free
    requires h.layout.blks[b].cells[j].size < size <= SIZE_LIMIT - 4
    requires mapping != NULL && KindFor(Rounded(size)) < 3 ==> NewMapping(h.layout.blks, mapping, KindFor(Rounded(size)))
    modifies h
    ensures h.Valid()
    ensures r == NULL <==> NoMemory(old(h.layout), Rounded(size), mapping)
    ensures r == NULL ==> h.layout == old(h.layout) && h.bytes == old(h.bytes)
    ensures r != NULL ==> Served(old(h.layout), h.layout, p, r, size) && Copied(old(h.bytes), h.bytes, r, p, old(h.layout.blks[b].cells[j].size))
  {
    hide TileInv, ListsOk, Offset, NoFitAnywhere, NoMemory, KindFor, Rounded, Obtained, Taken, Served, Returned, NeatInv, Live, LiveIn;
    ghost var l, s := h.layout, h.layout.blks[b].cells[j].size;
    ghost var b1: nat, j1: nat;
    OneAt(h.regions, l, b, j, s);
    r, b1, j1 := h.Alloc(size, mapping);
    if r == NULL {
      return;
    }
    ghost var l1 := h.layout;
    RoundedSize(size);
    Fresh(l, Rounded(size), mapping, b1, j1, l1, h.bestFit);
    AllocAddsOne(l, l1, h.bestFit, Rounded(size), mapping, b1, j1, p, s);
    ghost var c, i := FindAgain(l1, p, s);
    CellAt(h.regions, l1, c, i);
    ThreeLists(h.blocks, l1);
    NewIsApart(h.regions, l1, b1, j1, c, i);
    MoveServes(l, l1, h.regions, h.bestFit, Rounded(size), mapping, b1, j1, c, i, size);
    h.Copy(r, p, h.regions[p - REGION_HEADER].size);
    h.Free(p, c, i);
  }

  lemma Fresh(l: Layout, n: nat, mapping: nat, b: nat, j: nat, l1: Layout, best: bool)
    requires Allocated(l, l1, best, n, mapping, b, j) && (mapping != NULL && KindFor(n) < 3 ==> NewMapping(l.blks, mapping, KindFor(n)))
    requires !NoMemory(l, n, mapping)
    ensures NoFitAnywhere(l, n) ==> mapping !in l.blks
  {}

  /** Taking in the next region. */
  method TakeNext(h: Heap, region: nat, size: nat, ghost b: nat, ghost j: nat)
    requires h.Valid() && h.Names(region, b, j) && !h.layout.blks[b].cells[j].free
    requires PathFor(h.layout.blks[b].cells, j, size).IntoNext? && size > h.layout.blks[b].cells[j].size
    modifies h`regions, h`layout
    ensures h.Sound() && h.layout == SetCells(old(h.layout), b, Widened(old(h.layout.blks[b].cells), j, size))
    ensures var cells := old(h.layout.blks[b].cells);
      Served(old(h.layout), h.layout, region + REGION_HEADER, region + REGION_HEADER, size) <==> GrowsWell(cells, j, size)
  {
    hide TileInv, ListsOk, Offset, MergeCells, SplitCells, Served, NeatInv;
    ghost var l, cells, regions := h.layout, h.layout.blks[b].cells, h.regions;
    h.Merge(region, b, j);
    MergePlace(b, cells, j);
    h.Split(region, size, b, j);
    assert h.layout == SetCells(l, b, Widened(cells, j, size));
    NextServes(regions, l, b, j, h.regions, size);
  }

  /** Merging into the region before, and on into the one after. What the copy then does is undefined,
      because the two places may overlap and the header that gives its length may be gone. */
  method TakePrevious(h: Heap, region: nat, size: nat, both: bool, ghost b: nat, ghost j: nat)
    requires h.Valid() && 0 < j && h.Names(region, b, j - 1) && j < |h.layout.blks[b].cells| && !h.layout.blks[b].cells[j].free
    requires size > h.layout.blks[b].cells[j].size && PathFor(h.layout.blks[b].cells, j, size) == if both then IntoBoth else IntoPrevious
    modifies h`regions, h`layout, h`bytes
    ensures h.Sound() && h.layout == SetCells(old(h.layout), b, Widened(old(h.layout.blks[b].cells), j, size))
    ensures !Served(old(h.layout), h.layout, Addr(b, old(h.layout.blks[b].cells), j) + REGION_HEADER, region + REGION_HEADER, size)
  {
    hide TileInv, ListsOk, Offset, SplitCells, Served, NeatInv;
    ghost var l, cells, regions := h.layout, h.layout.blks[b].cells, h.regions;
    h.Merge(region, b, j - 1);
    MergePlace(b, cells, j - 1);
    if both {
      ghost var merged := h.layout.blks[b].cells;
      h.Merge(region, b, j - 1);
      MergePlace(b, merged, j - 1);
    }
    ghost var merged := h.layout.blks[b].cells;
    h.Split(region, size, b, j - 1);
    SplitKeepsPlace(b, merged, j - 1, size);
    assert h.layout == SetCells(l, b, Widened(cells, j, size));
    KeepsMark(cells, j, size);
    if Addr(b, cells, j) == Addr(b, cells, j - 1) { AddrInjective(b, cells, j, j - 1); }
    PreviousFails(regions, l, b, j - 1, Widened(cells, j, size), h.regions, Addr(b, cells, j) + REGION_HEADER, size);
    h.bytes := *;
  }

  lemma KeepsMark(cells: seq<Cell>, j: nat, size: nat)
    requires 0 < j < |cells| && size > cells[j].size && (PathFor(cells, j, size).IntoBoth? || PathFor(cells, j, size).IntoPrevious?)
    ensures j - 1 < |Widened(cells, j, size)| && Widened(cells, j, size)[j - 1].free == cells[j - 1].free
    ensures cells[j - 1].free || cells[j - 1].size < size
  {}

  /** An object that has to grow. It is served exactly when it moves, or the free region after it is
      taken in and is large enough; `faults` says that a null pointer was followed. */
  method Grow(h: Heap, p: nat, size: nat, mapping: nat, ghost b: nat, ghost j: nat) returns (r: nat, faults: bool)
    requires h.Valid() && p >= REGION_HEADER && h.Names(p - REGION_HEADER, b, j) && !h.layout.blks[b].cells[j].free
    requires h.layout.blks[b].cells[j].size < size <= SIZE_LIMIT - 4
    requires mapping != NULL && KindFor(Rounded(size)) < 3 ==> NewMapping(h.layout.blks, mapping, KindFor(Rounded(size)))
    modifies h
    ensures h.Sound() && (faults <==> PathFor(old(h.layout.blks[b].cells), j, size).Faults?)
    ensures r == NULL ==> h.layout == old(h.layout) && h.bytes == old(h.bytes)
    ensures var path := PathFor(old(h.layout.blks[b].cells), j, size);
      r == NULL <==> path.Faults? || (path.Moves? && NoMemory(old(h.layout), Rounded(size), mapping))
    ensures r != NULL ==> !faults && (Served(old(h.layout), h.layout, p, r, size) <==> GrowsWell(old(h.layout.blks[b].cells), j, size))
    ensures r != NULL && GrowsWell(old(h.layout.blks[b].cells), j, size) ==> Copied(old(h.bytes), h.bytes, r, p, old(h.layout.blks[b].cells[j].size))
    ensures var path := PathFor(old(h.layout.blks[b].cells), j, size);
      if path.Moves? then h.Valid() else h.layout == SetCells(old(h.layout), b, Widened(old(h.layout.blks[b].cells), j, size))
  {
    hide TileInv, ListsOk, Offset, Widened, Served, NeatInv, NoFitAnywhere, NoMemory, KindFor, Rounded;
    var curr := p - REGION_HEADER;
    ghost var cells := h.layout.blks[b].cells;
    CellAt(h.regions, h.layout, b, j);
    if j > 0 { CellAt(h.regions, h.layout, b, j - 1); }
    if j + 1 < |cells| { CellAt(h.regions, h.layout, b, j + 1); }
    var x := h.regions[curr];
    var coalition := x.size;
    faults := false;
    if x.next != NULL && h.regions[x.next].free {
      if x.prev == NULL {
        StaysSame(h.layout, b, j, size);
        return NULL, true;
      }
      if x.size + h.regions[x.prev].size + REGION_HEADER >= size {
        TakeNext(h, curr, size, b, j);
        return p, false;
      }
      coalition := coalition + h.regions[x.next].size + REGION_HEADER;
    }
    if x.prev != NULL && h.regions[x.prev].free {
      if x.size + h.regions[x.prev].size + REGION_HEADER >= size {
        TakePrevious(h, x.prev, size, false, b, j);
        return x.prev + REGION_HEADER, false;
      }
      coalition := coalition + h.regions[x.prev].size + REGION_HEADER;
    }
    if coalition >= size {
      TakePrevious(h, x.prev, size, true, b, j);
      return x.prev + REGION_HEADER, false;
    }
    r := Move(h, p, size, mapping, b, j);
  }

  lemma StaysSame(l: Layout, b: nat, j: nat, size: nat)
    requires b in l.blks && j < |l.blks[b].cells| && size > l.blks[b].cells[j].size && PathFor(l.blks[b].cells, j, size).Faults?
    ensures l == SetCells(l, b, Widened(l.blks[b].cells, j, size))
  {}

  /** An object of at least `size` bytes has appeared at `r`, and no other has changed. */
  ghost predicate Added(l: Layout, l': Layout, r: nat, size: nat) {
    exists s: nat :: s >= size && OneMore(l, l', r, s)
  }

  ghost predicate OneMore(l: Layout, l': Layout, r: nat, s: nat) {
    forall a, t :: Live(l', a, t) <==> Live(l, a, t) || (a == r && t == s)
  }

  /** Whether an object gets the size asked for. */
  predicate ResizesWell(cells: seq<Cell>, j: nat, size: nat) {
    j < |cells| && (size <= cells[j].size || GrowsWell(cells, j, size))
  }

  /** Growing has no result: it faults, or has to move without memory. */
  ghost predicate Fails(l: Layout, b: nat, j: nat, size: nat, mapping: nat) {
    b in l.blks && j < |l.blks[b].cells| && size > 0 &&
    (PathFor(l.blks[b].cells, j, size).Faults? || (PathFor(l.blks[b].cells, j, size).Moves? && NoMemory(l, Rounded(size), mapping)))
  }

  /** `realloc`: free for size 0, malloc for the null pointer, a cut for a smaller size, else growth. */
  method Resize(h: Heap, p: nat, size: nat, mapping: nat, ghost b: nat, ghost j: nat) returns (r: nat, faults: bool)
    requires h.Valid() && size <= SIZE_LIMIT - 4
    requires p != NULL ==> p >= REGION_HEADER && h.Names(p - REGION_HEADER, b, j) && !h.layout.blks[b].cells[j].free
    requires size > 0 && mapping != NULL && KindFor(Rounded(size)) < 3 ==> NewMapping(h.layout.blks, mapping, KindFor(Rounded(size)))
    modifies h
    ensures h.Sound() && (r == NULL ==> h.layout == old(h.layout) && h.bytes == old(h.bytes))
    ensures size == 0 && p != NULL ==> r == p && h.Valid() && old(h.layout.blks[b]).kind < 3 && |old(h.layout.lists)| == 3 && h.layout == Returned(old(h.layout), b, j)
    ensures size == 0 && p == NULL ==> r == NULL
    ensures size > 0 && p == NULL ==> (r == NULL <==> NoMemory(old(h.layout), Rounded(size), mapping))
    ensures size > 0 && p != NULL ==> (r == NULL <==> size > old(h.layout.blks[b].cells[j].size) && Fails(old(h.layout), b, j, size, mapping))
    ensures size > 0 && p == NULL && r != NULL ==> h.Valid() && Added(old(h.layout), h.layout, r, size) && h.bytes == old(h.bytes)
    ensures size > 0 && p != NULL && r != NULL ==>
      (Served(old(h.layout), h.layout, p, r, size) <==> ResizesWell(old(h.layout.blks[b].cells), j, size))
    ensures size > 0 && p != NULL && r != NULL && ResizesWell(old(h.layout.blks[b].cells), j, size) ==>
      var kept := old(h.layout.blks[b].cells[j].size); Copied(old(h.bytes), h.bytes, r, p, if size < kept then size else kept)
    ensures faults <==> size > 0 && p != NULL && size > old(h.layout.blks[b].cells[j].size) && PathFor(old(h.layout.blks[b].cells), j, size).Faults?
  {
    hide TileInv, ListsOk, Offset, Widened, NeatInv, NoFitAnywhere, NoMemory, KindFor, Rounded, GrowsWell, Live, Returned, Allocated, PathFor;
    faults := false;
    if size == 0 {
      h.Free(p, b, j);
      return p, false;
    }
    ghost var l, regions := h.layout, h.regions;
    if p == NULL {
      ghost var c: nat, i: nat;
      r, c, i := h.Alloc(size, mapping);
      if r != NULL {
        RoundedSize(size);
        Fresh(l, Rounded(size), mapping, c, i, h.layout, h.bestFit);
        MallocAdds(l, h.layout, h.bestFit, Rounded(size), mapping, c, i, size);
      }
      return;
    }
    CellAt(h.regions, h.layout, b, j);
    if size <= h.regions[p - REGION_HEADER].size {
      h.ReallocShrink(p, size, b, j);
      assert h.layout == SetCells(l, b, Cut(l.blks[b].cells, j, size));
      ShrinkServes(regions, l, b, j, h.regions, size);
      return p, false;
    }
    r, faults := Grow(h, p, size, mapping, b, j);
  }

  lemma MallocAdds(l: Layout, l': Layout, best: bool, n: nat, mapping: nat, b: nat, j: nat, size: nat)
    requires Allocated(l, l', best, n, mapping, b, j) && (NoFitAnywhere(l, n) ==> mapping !in l.blks) && n >= size
    ensures Added(l, l', Addr(b, l'.blks[b].cells, j) + REGION_HEADER, size)
  {
    hide NoFitAnywhere, Obtained, Live, Taken, Offset;
    var s := l'.blks[b].cells[j].size;
    forall a, t ensures Live(l', a, t) <==> Live(l, a, t) || (a == Addr(b, l'.blks[b].cells, j) + REGION_HEADER && t == s) {
      AllocAddsOne(l, l', best, n, mapping, b, j, a, t);
    }
    assert OneMore(l, l', Addr(b, l'.blks[b].cells, j) + REGION_HEADER, s);
  }

  /** Taking in the next region keeps the block neat exactly when nothing is cut off, or at a multiple
      of 4. */
  lemma NextNeat(cells: seq<Cell>, j: nat, size: nat)
    requires Neat(cells) && j < |cells| && !cells[j].free && size > cells[j].size && PathFor(cells, j, size).IntoNext?
    ensures Neat(Widened(cells, j, size)) <==> !CanSplit(MergeCells(cells, j), j, size) || size % 4 == 0
  {
    var merged := MergeCells(cells, j);
    assert merged[j] == Cell(false, cells[j].size + REGION_HEADER + cells[j + 1].size);
    forall i | 0 <= i && i + 1 < |merged| ensures !(merged[i].free && merged[i + 1].free) {
      if i < j { assert merged[i] == cells[i] && !(cells[i].free && cells[i + 1].free); }
      if i > j { assert merged[i] == cells[i + 1] && !(cells[i + 1].free && cells[i + 2].free); }
    }
    if j + 1 < |merged| { assert merged[j + 1] == cells[j + 2] && !(cells[j + 1].free && cells[j + 2].free); }
    assert Neat(merged);
    if CanSplit(merged, j, size) {
      ShrunkNeat(merged, j, size);
    }
  }

  // ---------------------------------------------------------------------------------------------
  // The four ways to go wrong, in blocks that calls of malloc and free build

  /** The first object of a block, with free memory behind it. */
  function AloneInBlock(): seq<Cell> {
    [Cell(false, 64), Cell(true, 16240)]
  }

  /** A small free region behind the second object, and a large object before it. */
  function SmallBehind(): seq<Cell> {
    [Cell(false, 256), Cell(false, 64), Cell(true, 64), Cell(false, 64), Cell(true, 15760)]
  }

  /** A free region before the second object, and none behind it. */
  function FreeBefore(): seq<Cell> {
    [Cell(true, 256), Cell(false, 64), Cell(false, 64), Cell(true, 15856)]
  }

  /** An object before the second one, and free memory behind it. */
  function UsedBefore(): seq<Cell> {
    [Cell(false, 64), Cell(false, 64), Cell(true, 16144)]
  }

  lemma GoesWrong(b: nat)
    requires b > 0
    ensures Tiled(b, Blk(0, AloneInBlock())) && Neat(AloneInBlock()) && PathFor(AloneInBlock(), 0, 100).Faults?
    ensures Tiled(b, Blk(0, SmallBehind())) && Neat(SmallBehind()) && PathFor(SmallBehind(), 1, 300).IntoNext? && !GrowsWell(SmallBehind(), 1, 300)
    ensures Tiled(b, Blk(0, FreeBefore())) && Neat(FreeBefore()) && PathFor(FreeBefore(), 1, 200).IntoPrevious?
    ensures Tiled(b, Blk(0, UsedBefore())) && Neat(UsedBefore()) && PathFor(UsedBefore(), 1, 500).IntoBoth?
  {
    assert Offset(AloneInBlock(), 1) == 96;
    assert Offset(SmallBehind(), 2) == 384 && Offset(SmallBehind(), 4) == 576;
    assert Offset(FreeBefore(), 2) == 384 && Offset(FreeBefore(), 3) == 480;
    assert Offset(UsedBefore(), 2) == 192;
  }

  /** A heap of one small block with these regions. */
  ghost predicate Holds(h: Heap, b: nat, cells: seq<Cell>)
    reads h
  {
    h.Valid() && h.layout.blks == map[b := Blk(0, cells)]
  }

  lemma FirstRegion(l: Layout, l': Layout, best: bool, n: nat, mapping: nat, b: nat, j: nat)
    requires l == Layout(map[], [[], [], []]) && Allocated(l, l', best, n, mapping, b, j) && n <= 1024
    ensures b == mapping && j == 0 && l'.blks == map[b := Blk(0, [Cell(false, n), Cell(true, 16304 - n)])]
  {
    assert NoFitAnywhere(l, n) && KindFor(n) == 0;
    var cells := OneRegion(0);
    assert cells == [Cell(true, 16336)];
    assert Taken(cells, 0, n) == [Cell(false, n), Cell(true, 16304 - n)];
  }

  lemma NextRegion(l: Layout, l': Layout, best: bool, n: nat, mapping: nat, b: nat, j: nat, c: nat, used: seq<Cell>, s: nat)
    requires l.blks == map[c := Blk(0, used + [Cell(true, s)])] && (forall i :: 0 <= i < |used| ==> !used[i].free)
    requires Allocated(l, l', best, n, mapping, b, j) && s >= n + REGION_HEADER + MIN_SIZE
    ensures b == c && j == |used| && l'.blks == map[c := Blk(0, used + [Cell(false, n), Cell(true, s - n - REGION_HEADER)])]
  {
    var cells := used + [Cell(true, s)];
    assert l.blks[c].cells == cells && Fits(cells[|used|], n);
    assert !NoFit(l.blks[c].cells, n);
    assert b == c && Fits(cells[j], n);
    assert Taken(cells, j, n) == used + [Cell(false, n), Cell(true, s - n - REGION_HEADER)];
  }

  lemma PlainSizes(n: nat)
    requires MIN_SIZE <= n <= 1024 && n % 4 == 0
    ensures Rounded(n) == n && KindFor(n) == 0
  {}

  method FirstObject(best: bool, mapping: nat, n: nat) returns (h: Heap, p: nat)
    requires 0 < mapping <= SIZE_LIMIT - 16384 && MIN_SIZE <= n <= 1024 && n % 4 == 0
    ensures fresh(h) && Holds(h, mapping, [Cell(false, n), Cell(true, 16304 - n)]) && p == mapping + BLOCK_HEADER + REGION_HEADER
  {
    h := new Heap(best);
    PlainSizes(n);
    assert KindSize(0) == 16384;
    hide KindFor, Rounded, Allocated;
    ghost var l, b: nat, j: nat := h.layout, 0, 0;
    EmptyGrows(l, n, mapping);
    p, b, j := h.Alloc(n, mapping);
    FirstRegion(l, h.layout, best, n, mapping, b, j);
  }

  lemma EmptyGrows(l: Layout, n: nat, mapping: nat)
    requires l == Layout(map[], [[], [], []]) && KindFor(n) == 0 && mapping != NULL
    ensures !NoMemory(l, n, mapping)
  {}

  method NextObject(h: Heap, n: nat, ghost b: nat, ghost used: seq<Cell>, ghost s: nat) returns (p: nat)
    requires Holds(h, b, used + [Cell(true, s)]) && (forall i :: 0 <= i < |used| ==> !used[i].free)
    requires MIN_SIZE <= n <= 1024 && n % 4 == 0 && s >= n + REGION_HEADER + MIN_SIZE
    modifies h
    ensures Holds(h, b, used + [Cell(false, n), Cell(true, s - n - REGION_HEADER)])
    ensures p == Addr(b, used + [Cell(false, n), Cell(true, s - n - REGION_HEADER)], |used|) + REGION_HEADER
  {
    PlainSizes(n);
    hide KindFor, Rounded, Allocated, Offset;
    ghost var l, c: nat, j: nat := h.layout, 0, 0;
    LastFits(l, n, NULL, b, used, s);
    p, c, j := h.Alloc(n, NULL);
    NextRegion(l, h.layout, h.bestFit, n, NULL, c, j, b, used, s);
  }

  lemma LastFits(l: Layout, n: nat, mapping: nat, b: nat, used: seq<Cell>, s: nat)
    requires l.blks == map[b := Blk(0, used + [Cell(true, s)])] && s >= n
    ensures !NoMemory(l, n, mapping)
  {
    assert Fits((used + [Cell(true, s)])[|used|], n);
    assert !NoFit(l.blks[b].cells, n);
  }

  method Release(h: Heap, p: nat, ghost b: nat, ghost j: nat, ghost cells: seq<Cell>)
    requires Holds(h, b, cells) && j < |cells| && |cells| > 1 && !cells[j].free && p == Addr(b, cells, j) + REGION_HEADER
    requires !PreviousFree(cells, j) && !NextFree(cells, j)
    modifies h
    ensures Holds(h, b, cells[j := Cell(true, cells[j].size)])
  {
    h.Free(p, b, j);
    assert Freed(cells, j) == cells[j := Cell(true, cells[j].size)];
  }

  /** An object of the block is to grow, and does not have to move. */
  method TryGrow(h: Heap, p: nat, size: nat, ghost b: nat, ghost j: nat, ghost cells: seq<Cell>) returns (r: nat, faults: bool)
    requires Holds(h, b, cells) && j < |cells| && !cells[j].free && p == Addr(b, cells, j) + REGION_HEADER
    requires cells[j].size < size <= 1024 && !PathFor(cells, j, size).Moves?
    modifies h
    ensures faults <==> PathFor(cells, j, size).Faults?
    ensures !faults ==> r != NULL && (Served(old(h.layout), h.layout, p, r, size) <==> GrowsWell(cells, j, size))
  {
    hide Served, GrowsWell, PathFor, TileInv, ListsOk, NeatInv, Offset, NoMemory;
    r, faults := Grow(h, p, size, NULL, b, j);
  }

  /** malloc, and realloc to a larger size: a null pointer is followed. */
  method ReachesFault(best: bool, mapping: nat) returns (h: Heap, p: nat, r: nat, faults: bool)
    requires 0 < mapping <= SIZE_LIMIT - 16384
    ensures faults
  {
    hide Holds, Served, GrowsWell, Offset;
    GoesWrong(mapping);
    FirstPlace(mapping);
    h, p := FirstObject(best, mapping, 64);
    r, faults := TryGrow(h, p, 100, mapping, 0, AloneInBlock());
  }

  /** Four objects, the third one freed: the second gets less than it asks for. */
  method ReachesShort(best: bool, mapping: nat) returns (h: Heap, p: nat, r: nat, ghost l: Layout)
    requires 0 < mapping <= SIZE_LIMIT - 16384
    ensures r != NULL && !Served(l, h.layout, p, r, 300)
  {
    hide Holds, Served, GrowsWell, Offset, PathFor, Tiled, Neat;
    var o: nat;
    h, o := FirstObject(best, mapping, 256);
    ghost var first := [Cell(false, 256)];
    assert [Cell(false, 256), Cell(true, 16048)] == first + [Cell(true, 16048)];
    p := NextObject(h, 64, mapping, first, 16048);
    ghost var second := [Cell(false, 256), Cell(false, 64)];
    assert first + [Cell(false, 64), Cell(true, 15952)] == second + [Cell(true, 15952)];
    SamePlace(mapping, second + [Cell(true, 15952)], SmallBehind(), 1);
    o := NextObject(h, 64, mapping, second, 15952);
    ghost var third := [Cell(false, 256), Cell(false, 64), Cell(false, 64)];
    assert second + [Cell(false, 64), Cell(true, 15856)] == third + [Cell(true, 15856)];
    ghost var all := third + [Cell(false, 64), Cell(true, 15760)];
    SamePlace(mapping, third + [Cell(true, 15856)], all, 2);
    var last := NextObject(h, 64, mapping, third, 15856);
    Release(h, o, mapping, 2, all);
    assert all[2 := Cell(true, 64)] == SmallBehind();
    l := h.layout;
    GoesWrong(mapping);
    var faults: bool;
    r, faults := TryGrow(h, p, 300, mapping, 1, SmallBehind());
  }

  /** Three objects, the first one freed: the second ends in memory marked free. */
  method ReachesPrevious(best: bool, mapping: nat) returns (h: Heap, p: nat, r: nat, ghost l: Layout)
    requires 0 < mapping <= SIZE_LIMIT - 16384
    ensures r != NULL && !Served(l, h.layout, p, r, 200)
  {
    hide Holds, Served, GrowsWell, Offset, PathFor, Tiled, Neat;
    var o: nat;
    h, o := FirstObject(best, mapping, 256);
    ghost var first := [Cell(false, 256)];
    assert [Cell(false, 256), Cell(true, 16048)] == first + [Cell(true, 16048)];
    p := NextObject(h, 64, mapping, first, 16048);
    ghost var second := [Cell(false, 256), Cell(false, 64)];
    assert first + [Cell(false, 64), Cell(true, 15952)] == second + [Cell(true, 15952)];
    SamePlace(mapping, second + [Cell(true, 15952)], FreeBefore(), 1);
    var last := NextObject(h, 64, mapping, second, 15952);
    ghost var all := second + [Cell(false, 64), Cell(true, 15856)];
    FirstPlace(mapping);
    Release(h, o, mapping, 0, all);
    assert all[0 := Cell(true, 256)] == FreeBefore();
    l := h.layout;
    GoesWrong(mapping);
    NotWell(FreeBefore(), 1, 200);
    var faults: bool;
    r, faults := TryGrow(h, p, 200, mapping, 1, FreeBefore());
  }

  /** Two objects: the second one swallows the first. */
  method ReachesBoth(best: bool, mapping: nat) returns (h: Heap, p: nat, r: nat, ghost l: Layout)
    requires 0 < mapping <= SIZE_LIMIT - 16384
    ensures r != NULL && !Served(l, h.layout, p, r, 500)
  {
    hide Holds, Served, GrowsWell, Offset, PathFor, Tiled, Neat;
    var o: nat;
    h, o := FirstObject(best, mapping, 64);
    ghost var first := [Cell(false, 64)];
    assert [Cell(false, 64), Cell(true, 16240)] == first + [Cell(true, 16240)];
    p := NextObject(h, 64, mapping, first, 16240);
    assert first + [Cell(false, 64), Cell(true, 16144)] == UsedBefore();
    l := h.layout;
    GoesWrong(mapping);
    NotWell(UsedBefore(), 1, 500);
    var faults: bool;
    r, faults := TryGrow(h, p, 500, mapping, 1, UsedBefore());
  }

  lemma NotWell(cells: seq<Cell>, j: nat, size: nat)
    requires j < |cells| && (PathFor(cells, j, size).IntoPrevious? || PathFor(cells, j, size).IntoBoth?)
    ensures !GrowsWell(cells, j, size)
  {}

  lemma FirstPlace(b: nat)
    ensures forall cells: seq<Cell> :: Addr(b, cells, 0) == b + BLOCK_HEADER
  {}

  lemma SamePlace(b: nat, cells: seq<Cell>, cells': seq<Cell>, i: nat)
    requires i <= |cells| && i <= |cells'| && forall k :: 0 <= k < i ==> cells'[k].size == cells[k].size
    ensures Addr(b, cells', i) == Addr(b, cells, i)
  {
    OffsetPrefix(cells, cells', i);
  }
}
