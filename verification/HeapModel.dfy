/** The layout of the allocator's heap: blocks tiled by chains of regions, and what splitting and
    merging regions does to it. */
module HeapModel {
  const NULL: nat := 0
  const BLOCK_HEADER: nat := 16
  const REGION_HEADER: nat := 32
  const MIN_SIZE: nat := 64
  const MAX_BLOCKS: nat := 32
  const SIZE_LIMIT: nat := 0x1_0000_0000_0000_0000

  /** `struct region` and `struct block`, pointers being addresses. */
  datatype Region = Region(free: bool, size: nat, next: nat, prev: nat)
  datatype Block = Block(next: nat, prev: nat)

  /** A region as the layout sees it: its place follows from the regions before it. */
  datatype Cell = Cell(free: bool, size: nat)

  /** The regions of a block in address order; `kind` is small, medium or large. */
  datatype Blk = Blk(kind: nat, cells: seq<Cell>)

  datatype Layout = Layout(blks: map<nat, Blk>, lists: seq<seq<nat>>)

  function KindSize(kind: nat): nat {
    if kind == 0 then 16384 else if kind == 1 then 1048576 else 33554432
  }

  // ---------------------------------------------------------------------------------------------
  // Places

  /** How far into the block's region area region `i` starts. */
  function Offset(cells: seq<Cell>, i: nat): nat
    requires i <= |cells|
  {
    if i == 0 then 0 else Offset(cells, i - 1) + REGION_HEADER + cells[i - 1].size
  }

  function Addr(b: nat, cells: seq<Cell>, i: nat): nat
    requires i <= |cells|
  {
    b + BLOCK_HEADER + Offset(cells, i)
  }

  lemma {:induction false} OffsetGrows(cells: seq<Cell>, i: nat, j: nat)
    requires i < j <= |cells|
    ensures Offset(cells, i) + REGION_HEADER + cells[i].size <= Offset(cells, j)
    decreases j
  {
    if i < j - 1 {
      OffsetGrows(cells, i, j - 1);
    }
  }

  /** Distinct regions start at distinct places. */
  lemma AddrInjective(b: nat, cells: seq<Cell>, i: nat, j: nat)
    requires i < |cells| && j < |cells| && Addr(b, cells, i) == Addr(b, cells, j)
    ensures i == j
  {
    if i < j { OffsetGrows(cells, i, j); } else if j < i { OffsetGrows(cells, j, i); }
  }

  lemma {:induction false} OffsetPrefix(cells: seq<Cell>, cells': seq<Cell>, i: nat)
    requires i <= |cells| && i <= |cells'| && forall k :: 0 <= k < i ==> cells'[k].size == cells[k].size
    ensures Offset(cells', i) == Offset(cells, i)
    decreases i
  {
    if i > 0 { OffsetPrefix(cells, cells', i - 1); }
  }

  /** Equal tails after equal offsets stay in step. */
  lemma {:induction false} OffsetTail(cells: seq<Cell>, cells': seq<Cell>, i: nat, i': nat, n: nat)
    requires i + n <= |cells| && i' + n <= |cells'| && Offset(cells', i') == Offset(cells, i)
    requires cells'[i'..i' + n] == cells[i..i + n]
    ensures Offset(cells', i' + n) == Offset(cells, i + n)
    decreases n
  {
    if n > 0 {
      assert cells'[i'..i' + n - 1] == cells'[i'..i' + n][..n - 1] == cells[i..i + n][..n - 1] == cells[i..i + n - 1];
      assert cells'[i' + n - 1] == cells'[i'..i' + n][n - 1] == cells[i + n - 1];
      OffsetTail(cells, cells', i, i', n - 1);
    }
  }

  // ---------------------------------------------------------------------------------------------
  // Chains

  /** What the header of region `i` must hold. */
  function HeaderOf(b: nat, cells: seq<Cell>, i: nat): Region
    requires i < |cells|
  {
    Region(cells[i].free, cells[i].size,
           if i + 1 < |cells| then Addr(b, cells, i + 1) else NULL,
           if i > 0 then Addr(b, cells, i - 1) else NULL)
  }

  predicate HeaderOk(regions: map<nat, Region>, b: nat, cells: seq<Cell>, i: nat) {
    i < |cells| ==> Addr(b, cells, i) in regions && regions[Addr(b, cells, i)] == HeaderOf(b, cells, i)
  }

  ghost predicate Linked(regions: map<nat, Region>, b: nat, cells: seq<Cell>) {
    forall i: nat :: HeaderOk(regions, b, cells, i)
  }

  /** The regions fill the block exactly. */
  predicate Tiled(b: nat, blk: Blk) {
    b > 0 && blk.kind < 3 && blk.cells != [] && BLOCK_HEADER + Offset(blk.cells, |blk.cells|) == KindSize(blk.kind)
  }

  predicate Apart(b: nat, x: Blk, c: nat, y: Blk) {
    b + KindSize(x.kind) <= c || c + KindSize(y.kind) <= b
  }

  ghost predicate TileInv(regions: map<nat, Region>, blks: map<nat, Blk>) {
    && (forall b :: b in blks ==> Tiled(b, blks[b]) && Linked(regions, b, blks[b].cells))
    && (forall b, c :: b in blks && c in blks && b != c ==> Apart(b, blks[b], c, blks[c]))
  }

  predicate NoFreePair(cells: seq<Cell>) {
    forall i {:trigger cells[i].free} :: 0 <= i && i + 1 < |cells| ==> !(cells[i].free && cells[i + 1].free)
  }

  predicate SizesOk(cells: seq<Cell>) {
    forall i :: 0 <= i < |cells| ==> cells[i].size >= MIN_SIZE && cells[i].size % 4 == 0
  }

  predicate HasLive(cells: seq<Cell>) {
    exists i :: 0 <= i < |cells| && !cells[i].free
  }

  /** What malloc and free keep of every block: no two free neighbours, sizes of at least 64 and in
      multiples of 4, and something in use. */
  predicate Neat(cells: seq<Cell>) {
    NoFreePair(cells) && SizesOk(cells) && HasLive(cells)
  }

  ghost predicate NeatInv(blks: map<nat, Blk>) {
    forall b :: b in blks ==> Neat(blks[b].cells)
  }

  // ---------------------------------------------------------------------------------------------
  // Disjointness

  /** A region's payload. */
  predicate InPayload(l: Layout, b: nat, i: nat, a: nat) {
    b in l.blks && i < |l.blks[b].cells| &&
    Addr(b, l.blks[b].cells, i) + REGION_HEADER <= a < Addr(b, l.blks[b].cells, i) + REGION_HEADER + l.blks[b].cells[i].size
  }

  predicate InHeader(l: Layout, b: nat, i: nat, a: nat) {
    b in l.blks && i < |l.blks[b].cells| && Addr(b, l.blks[b].cells, i) <= a < Addr(b, l.blks[b].cells, i) + REGION_HEADER
  }

  lemma Inside(b: nat, blk: Blk, i: nat)
    requires Tiled(b, blk) && i < |blk.cells|
    ensures b + BLOCK_HEADER <= Addr(b, blk.cells, i)
    ensures Addr(b, blk.cells, i) + REGION_HEADER + blk.cells[i].size <= b + KindSize(blk.kind)
  {
    OffsetGrows(blk.cells, i, |blk.cells|);
  }

  /** No byte belongs to two regions, neither to two payloads nor to a payload and a header, so no
      header that split, merge or coalesce writes lies in memory that is in use. */
  lemma RegionsDisjoint(regions: map<nat, Region>, l: Layout, b: nat, i: nat, c: nat, j: nat, a: nat)
    requires TileInv(regions, l.blks) && (InPayload(l, b, i, a) || InHeader(l, b, i, a)) && (InPayload(l, c, j, a) || InHeader(l, c, j, a))
    ensures b == c && i == j && (InPayload(l, b, i, a) <==> InPayload(l, c, j, a))
  {
    assert Tiled(b, l.blks[b]) && Tiled(c, l.blks[c]) && (b != c ==> Apart(b, l.blks[b], c, l.blks[c]));
    Inside(b, l.blks[b], i);
    Inside(c, l.blks[c], j);
    if b == c {
      if i < j { OffsetGrows(l.blks[b].cells, i, j); }
      if j < i { OffsetGrows(l.blks[b].cells, j, i); }
    }
  }

  /** A region alone in its block has exactly the size the block was mapped with. */
  lemma LoneRegion(b: nat, blk: Blk)
    requires Tiled(b, blk) && |blk.cells| == 1
    ensures blk.cells[0].size + BLOCK_HEADER + REGION_HEADER == KindSize(blk.kind)
  {
    assert Offset(blk.cells, 1) == Offset(blk.cells, 0) + REGION_HEADER + blk.cells[0].size;
  }

  lemma FitsTheBlock(b: nat, blk: Blk, i: nat)
    requires Tiled(b, blk) && i < |blk.cells|
    ensures blk.cells[i].size <= KindSize(blk.kind) - BLOCK_HEADER - REGION_HEADER
  {
    OffsetGrows(blk.cells, i, |blk.cells|);
  }

  // ---------------------------------------------------------------------------------------------
  // Split and merge

  function SetCell(cells: seq<Cell>, j: nat, c: Cell): seq<Cell>
    requires j < |cells|
  {
    cells[j := c]
  }

  /** The tail is cut off when it has room for a region of the least size. */
  predicate CanSplit(cells: seq<Cell>, j: nat, n: nat) {
    j < |cells| && cells[j].size >= n + REGION_HEADER + MIN_SIZE
  }

  function SplitCells(cells: seq<Cell>, j: nat, n: nat): seq<Cell>
    requires CanSplit(cells, j, n)
  {
    cells[..j] + [Cell(cells[j].free, n), Cell(true, cells[j].size - n - REGION_HEADER)] + cells[j + 1..]
  }

  function MergeCells(cells: seq<Cell>, j: nat): seq<Cell>
    requires j + 1 < |cells|
  {
    cells[..j] + [Cell(cells[j].free, cells[j].size + REGION_HEADER + cells[j + 1].size)] + cells[j + 2..]
  }

  lemma SplitOffsets(cells: seq<Cell>, j: nat, n: nat)
    requires CanSplit(cells, j, n)
    ensures var cells' := SplitCells(cells, j, n);
      && (forall i: nat :: i <= j ==> Offset(cells', i) == Offset(cells, i))
      && Offset(cells', j + 1) == Offset(cells, j) + REGION_HEADER + n
      && (forall i: nat {:trigger Offset(cells, i)} :: j < i <= |cells| ==> Offset(cells', i + 1) == Offset(cells, i))
  {
    var cells' := SplitCells(cells, j, n);
    forall i: nat | i <= j ensures Offset(cells', i) == Offset(cells, i) {
      OffsetPrefix(cells, cells', i);
    }
    assert Offset(cells', j + 2) == Offset(cells', j + 1) + REGION_HEADER + cells'[j + 1].size;
    assert Offset(cells, j + 1) == Offset(cells, j) + REGION_HEADER + cells[j].size;
    forall i: nat | j < i <= |cells| ensures Offset(cells', i + 1) == Offset(cells, i) {
      OffsetTail(cells, cells', j + 1, j + 2, i - j - 1);
    }
  }

  lemma MergeOffsets(cells: seq<Cell>, j: nat)
    requires j + 1 < |cells|
    ensures var cells' := MergeCells(cells, j);
      && (forall i: nat :: i <= j ==> Offset(cells', i) == Offset(cells, i))
      && (forall i: nat :: j < i < |cells| ==> Offset(cells', i) == Offset(cells, i + 1))
  {
    var cells' := MergeCells(cells, j);
    forall i: nat | i <= j ensures Offset(cells', i) == Offset(cells, i) {
      OffsetPrefix(cells, cells', i);
    }
    assert Offset(cells', j + 1) == Offset(cells', j) + REGION_HEADER + cells'[j].size;
    assert Offset(cells, j + 2) == Offset(cells, j + 1) + REGION_HEADER + cells[j + 1].size;
    assert Offset(cells, j + 1) == Offset(cells, j) + REGION_HEADER + cells[j].size;
    forall i: nat | j < i < |cells| ensures Offset(cells', i) == Offset(cells, i + 1) {
      OffsetTail(cells, cells', j + 2, j + 1, i - j - 1);
    }
  }

  function SetPrev(regions: map<nat, Region>, r: nat, prev: nat): map<nat, Region> {
    if r in regions then regions[r := regions[r].(prev := prev)] else regions
  }

  /** The header writes of `split`... */
  function SplitRegions(regions: map<nat, Region>, r: nat, n: nat): map<nat, Region>
    requires r in regions && regions[r].size >= n + REGION_HEADER
  {
    var fresh' := r + REGION_HEADER + n;
    var cut := regions[fresh' := Region(true, regions[r].size - n - REGION_HEADER, regions[r].next, r)];
    var linked := if regions[r].next != NULL then SetPrev(cut, regions[r].next, fresh') else cut;
    linked[r := regions[r].(size := n, next := fresh')]
  }

  /** ...and of `merge`. */
  function MergeRegions(regions: map<nat, Region>, r: nat): map<nat, Region>
    requires r in regions && regions[r].next in regions
  {
    var gone := regions[regions[r].next];
    var grown := regions[r := regions[r].(size := regions[r].size + REGION_HEADER + gone.size, next := gone.next)];
    if gone.next != NULL then SetPrev(grown, gone.next, r) else grown
  }

  lemma SplitLinked(regions: map<nat, Region>, b: nat, cells: seq<Cell>, j: nat, n: nat)
    requires b > 0 && Linked(regions, b, cells) && CanSplit(cells, j, n)
    ensures HeaderOk(regions, b, cells, j)
    ensures Linked(SplitRegions(regions, Addr(b, cells, j), n), b, SplitCells(cells, j, n))
    ensures Offset(SplitCells(cells, j, n), |cells| + 1) == Offset(cells, |cells|)
  {
    var cells', r := SplitCells(cells, j, n), Addr(b, cells, j);
    assert HeaderOk(regions, b, cells, j);
    var regions' := SplitRegions(regions, r, n);
    SplitOffsets(cells, j, n);
    forall i: nat ensures HeaderOk(regions', b, cells', i) {
      if i < |cells'| {
        SplitHeader(regions, b, cells, j, n, i);
      }
    }
  }

  /** The headers `split` writes, and the ones it leaves alone. */
  lemma SplitWrites(regions: map<nat, Region>, r: nat, n: nat)
    requires r in regions && regions[r].size >= n + REGION_HEADER && regions[r].next != r && regions[r].next != r + REGION_HEADER + n
    ensures var regions', new', next := SplitRegions(regions, r, n), r + REGION_HEADER + n, regions[r].next;
      && (forall a :: a != r && a != new' && (a != next || next == NULL) ==> (a in regions' <==> a in regions) && (a in regions ==> regions'[a] == regions[a]))
      && r in regions' && regions'[r] == regions[r].(size := n, next := new')
      && new' in regions' && regions'[new'] == Region(true, regions[r].size - n - REGION_HEADER, next, r)
      && (next != NULL && next in regions ==> next in regions' && regions'[next] == regions[next].(prev := new'))
  {}

  lemma SplitBefore(regions: map<nat, Region>, b: nat, cells: seq<Cell>, j: nat, n: nat, i: nat)
    requires b > 0 && Linked(regions, b, cells) && CanSplit(cells, j, n) && i < j
    ensures HeaderOk(regions, b, cells, j)
    ensures HeaderOk(SplitRegions(regions, Addr(b, cells, j), n), b, SplitCells(cells, j, n), i)
  {
    hide SplitRegions, Offset, Linked;
    LinkedAt(regions, b, cells, j);
    LinkedAt(regions, b, cells, i);
    OffsetGrows(cells, i, j);
    if j + 1 < |cells| { OffsetGrows(cells, i, j + 1); OffsetGrows(cells, j, j + 1); }
    SplitWrites(regions, Addr(b, cells, j), n);
    SplitOffsets(cells, j, n);
  }

  lemma SplitAt(regions: map<nat, Region>, b: nat, cells: seq<Cell>, j: nat, n: nat, i: nat)
    requires b > 0 && Linked(regions, b, cells) && CanSplit(cells, j, n) && j <= i <= j + 1
    ensures HeaderOk(regions, b, cells, j)
    ensures HeaderOk(SplitRegions(regions, Addr(b, cells, j), n), b, SplitCells(cells, j, n), i)
  {
    hide SplitRegions, Offset, Linked;
    LinkedAt(regions, b, cells, j);
    if j + 1 < |cells| { OffsetGrows(cells, j, j + 1); }
    SplitWrites(regions, Addr(b, cells, j), n);
    SplitOffsets(cells, j, n);
  }

  lemma SplitAfter(regions: map<nat, Region>, b: nat, cells: seq<Cell>, j: nat, n: nat, k: nat)
    requires b > 0 && Linked(regions, b, cells) && CanSplit(cells, j, n) && j < k < |cells|
    ensures HeaderOk(regions, b, cells, j)
    ensures HeaderOk(SplitRegions(regions, Addr(b, cells, j), n), b, SplitCells(cells, j, n), k + 1)
  {
    hide SplitRegions, Offset, Linked;
    LinkedAt(regions, b, cells, j);
    LinkedAt(regions, b, cells, k);
    OffsetGrows(cells, j, j + 1);
    OffsetGrows(cells, j, k);
    if j + 1 < k { OffsetGrows(cells, j + 1, k); }
    SplitWrites(regions, Addr(b, cells, j), n);
    SplitOffsets(cells, j, n);
  }

  lemma SplitHeader(regions: map<nat, Region>, b: nat, cells: seq<Cell>, j: nat, n: nat, i: nat)
    requires b > 0 && Linked(regions, b, cells) && CanSplit(cells, j, n) && i <= |cells|
    ensures HeaderOk(regions, b, cells, j)
    ensures HeaderOk(SplitRegions(regions, Addr(b, cells, j), n), b, SplitCells(cells, j, n), i)
  {
    hide SplitRegions, Offset, Linked, HeaderOk;
    LinkedAt(regions, b, cells, j);
    if i < j {
      SplitBefore(regions, b, cells, j, n, i);
    } else if i <= j + 1 {
      SplitAt(regions, b, cells, j, n, i);
    } else {
      SplitAfter(regions, b, cells, j, n, i - 1);
    }
  }

  lemma LinkedAt(regions: map<nat, Region>, b: nat, cells: seq<Cell>, i: nat)
    requires Linked(regions, b, cells)
    ensures HeaderOk(regions, b, cells, i)
  {}

  lemma MergeLinked(regions: map<nat, Region>, b: nat, cells: seq<Cell>, j: nat)
    requires b > 0 && Linked(regions, b, cells) && j + 1 < |cells|
    ensures HeaderOk(regions, b, cells, j) && HeaderOk(regions, b, cells, j + 1)
    ensures Linked(MergeRegions(regions, Addr(b, cells, j)), b, MergeCells(cells, j))
    ensures Offset(MergeCells(cells, j), |cells| - 1) == Offset(cells, |cells|)
  {
    var cells', r := MergeCells(cells, j), Addr(b, cells, j);
    assert HeaderOk(regions, b, cells, j) && HeaderOk(regions, b, cells, j + 1);
    MergeOffsets(cells, j);
    forall i: nat ensures HeaderOk(MergeRegions(regions, r), b, cells', i) {
      if i < |cells'| {
        MergeHeader(regions, b, cells, j, i);
      }
    }
  }

  /** The headers `merge` writes. */
  lemma MergeWrites(regions: map<nat, Region>, r: nat)
    requires r in regions && regions[r].next in regions && regions[r].next != r && regions[regions[r].next].next != r
    ensures var regions', gone := MergeRegions(regions, r), regions[regions[r].next];
      && (forall a :: a != r && (a != gone.next || gone.next == NULL) ==> (a in regions' <==> a in regions) && (a in regions ==> regions'[a] == regions[a]))
      && r in regions' && regions'[r] == regions[r].(size := regions[r].size + REGION_HEADER + gone.size, next := gone.next)
      && (gone.next != NULL && gone.next in regions ==> gone.next in regions' && regions'[gone.next] == regions[gone.next].(prev := r))
  {}

  lemma MergeHeader(regions: map<nat, Region>, b: nat, cells: seq<Cell>, j: nat, i: nat)
    requires b > 0 && Linked(regions, b, cells) && j + 1 < |cells| && i < |cells| - 1
    ensures HeaderOk(regions, b, cells, j) && HeaderOk(regions, b, cells, j + 1)
    ensures HeaderOk(MergeRegions(regions, Addr(b, cells, j)), b, MergeCells(cells, j), i)
  {
    hide MergeRegions, Offset;
    assert HeaderOk(regions, b, cells, j) && HeaderOk(regions, b, cells, j + 1);
    OffsetGrows(cells, j, j + 1);
    if j + 2 < |cells| {
      assert HeaderOk(regions, b, cells, j + 2);
      OffsetGrows(cells, j, j + 2);
    }
    MergeWrites(regions, Addr(b, cells, j));
    MergeOffsets(cells, j);
    if i < j {
      assert HeaderOk(regions, b, cells, i);
      OffsetGrows(cells, i, j);
      if j + 2 < |cells| { OffsetGrows(cells, i, j + 2); }
    } else if i > j {
      assert HeaderOk(regions, b, cells, i + 1);
      OffsetGrows(cells, j, i + 1);
      if j + 2 < i + 1 { OffsetGrows(cells, j + 2, i + 1); }
    }
  }

  // ---------------------------------------------------------------------------------------------
  // Handing out and taking back

  /** Region `j` handed out for `n` bytes. */
  function Taken(cells: seq<Cell>, j: nat, n: nat): seq<Cell>
    requires j < |cells|
  {
    var cut := if CanSplit(cells, j, n) then SplitCells(cells, j, n) else cells;
    SetCell(cut, j, Cell(false, cut[j].size))
  }

  predicate Fits(c: Cell, n: nat) {
    c.free && c.size >= n
  }

  /** A region handed out holds the request, wastes less than a header and a least region, and leaves
      its block neat. */
  lemma TakenNeat(cells: seq<Cell>, j: nat, n: nat)
    requires NoFreePair(cells) && SizesOk(cells) && j < |cells| && Fits(cells[j], n) && n >= MIN_SIZE && n % 4 == 0
    ensures Neat(Taken(cells, j, n)) && j < |Taken(cells, j, n)|
    ensures !Taken(cells, j, n)[j].free && n <= Taken(cells, j, n)[j].size < n + REGION_HEADER + MIN_SIZE
  {
    var after := Taken(cells, j, n);
    assert !after[j].free;
    if CanSplit(cells, j, n) {
      assert (cells[j].size - n - REGION_HEADER) % 4 == 0;
      forall i | 0 <= i && i + 1 < |after| ensures !(after[i].free && after[i + 1].free) {
        if i < j { assert !(cells[i].free && cells[i + 1].free); }
        if i > j { assert !(cells[i - 1].free && cells[i].free); }
      }
    }
  }

  /** Merging region `j` with its successor when that is free. */
  function Absorbed(cells: seq<Cell>, j: nat): seq<Cell>
    requires j < |cells|
  {
    if j + 1 < |cells| && cells[j + 1].free then MergeCells(cells, j) else cells
  }

  /** The region that holds a freed one after `coalesce`. */
  function Holder(cells: seq<Cell>, j: nat): nat
    requires j < |cells|
  {
    if j > 0 && cells[j - 1].free then j - 1 else j
  }

  /** `coalesce`: the region before, then the one after. */
  function Coalesced(cells: seq<Cell>, j: nat): seq<Cell>
    requires j < |cells|
  {
    Absorbed(if Holder(cells, j) < j then MergeCells(cells, j - 1) else cells, Holder(cells, j))
  }

  /** Region `j` given back and coalesced with its free neighbours. */
  function Freed(cells: seq<Cell>, j: nat): seq<Cell>
    requires j < |cells|
  {
    Coalesced(SetCell(cells, j, Cell(true, cells[j].size)), j)
  }

  /** Only region `h` and its successor may both be free. */
  predicate PairsBut(cells: seq<Cell>, h: nat) {
    forall i {:trigger cells[i].free} :: 0 <= i && i + 1 < |cells| && i != h ==> !(cells[i].free && cells[i + 1].free)
  }

  lemma MergedCells(cells: seq<Cell>, k: nat)
    requires k + 1 < |cells|
    ensures var merged := MergeCells(cells, k);
      && |merged| == |cells| - 1 && merged[k] == Cell(cells[k].free, cells[k].size + REGION_HEADER + cells[k + 1].size)
      && (forall i :: 0 <= i < k ==> merged[i] == cells[i])
      && (forall i :: k < i < |merged| ==> merged[i] == cells[i + 1])
      && (SizesOk(cells) ==> SizesOk(merged))
  {}

  lemma MarkedAndMerged(cells: seq<Cell>, j: nat)
    requires NoFreePair(cells) && SizesOk(cells) && j < |cells| && !cells[j].free
    ensures var marked, h := SetCell(cells, j, Cell(true, cells[j].size)), Holder(cells, j);
      var left := if h < j then MergeCells(marked, j - 1) else marked;
      h < |left| && left[h].free && PairsBut(left, h) && SizesOk(left)
  {
    var marked, h := SetCell(cells, j, Cell(true, cells[j].size)), Holder(cells, j);
    forall i | 0 <= i && i + 1 < |cells| && i != j && i + 1 != j ensures !(marked[i].free && marked[i + 1].free) {
      assert !(cells[i].free && cells[i + 1].free);
    }
    if h < j {
      MergedCells(marked, j - 1);
      var left := MergeCells(marked, j - 1);
      forall i | 0 <= i && i + 1 < |left| && i != h ensures !(left[i].free && left[i + 1].free) {
        if i + 1 == h { assert !cells[i].free; }
        if i > h { assert !(marked[i + 1].free && marked[i + 2].free); }
        if i + 1 < h { assert !(marked[i].free && marked[i + 1].free); }
      }
    }
  }

  lemma AbsorbedNeat(cells: seq<Cell>, h: nat)
    requires PairsBut(cells, h) && SizesOk(cells) && h < |cells| && cells[h].free
    ensures NoFreePair(Absorbed(cells, h)) && SizesOk(Absorbed(cells, h)) && h < |Absorbed(cells, h)| && Absorbed(cells, h)[h].free
  {
    if h + 1 < |cells| && cells[h + 1].free {
      MergedCells(cells, h);
      var after := MergeCells(cells, h);
      forall i | 0 <= i && i + 1 < |after| ensures !(after[i].free && after[i + 1].free) {
        if i < h { assert !(cells[i].free && cells[i + 1].free); } else { assert !(cells[i + 1].free && cells[i + 2].free); }
      }
    }
  }

  /** Freeing and coalescing leaves no free neighbours, and either something in use or a single region. */
  lemma FreedNeat(cells: seq<Cell>, j: nat)
    requires Neat(cells) && j < |cells| && !cells[j].free
    ensures NoFreePair(Freed(cells, j)) && SizesOk(Freed(cells, j)) && Freed(cells, j) != []
    ensures |Freed(cells, j)| != 1 ==> HasLive(Freed(cells, j))
    ensures Holder(cells, j) < |Freed(cells, j)| && Freed(cells, j)[Holder(cells, j)].free
  {
    hide MergeCells, Absorbed, SizesOk;
    MarkedAndMerged(cells, j);
    var marked, h := SetCell(cells, j, Cell(true, cells[j].size)), Holder(cells, j);
    AbsorbedNeat(if h < j then MergeCells(marked, j - 1) else marked, h);
    var after := Freed(cells, j);
    if |after| > 1 {
      assert !(after[0].free && after[1].free);
    }
  }

  // ---------------------------------------------------------------------------------------------
  // The objects in use

  /** An object of `s` bytes at `a` is in use in the block. */
  predicate LiveAt(b: nat, cells: seq<Cell>, i: nat, a: nat, s: nat) {
    i < |cells| && !cells[i].free && Addr(b, cells, i) + REGION_HEADER == a && cells[i].size == s
  }

  ghost predicate LiveIn(b: nat, cells: seq<Cell>, a: nat, s: nat) {
    exists i :: LiveAt(b, cells, i, a, s)
  }

  /** Handing out a region adds one object and moves none. */
  lemma TakenLive(b: nat, cells: seq<Cell>, j: nat, n: nat, a: nat, s: nat)
    requires j < |cells| && cells[j].free
    ensures j < |Taken(cells, j, n)|
    ensures LiveIn(b, Taken(cells, j, n), a, s) <==> LiveIn(b, cells, a, s) || (a == Addr(b, cells, j) + REGION_HEADER && s == Taken(cells, j, n)[j].size)
  {
    hide Offset;
    var after, split := Taken(cells, j, n), CanSplit(cells, j, n);
    if split { SplitOffsets(cells, j, n); }
    TakenOffsets(cells, j, n);
    forall i: nat | LiveAt(b, cells, i, a, s) ensures LiveIn(b, after, a, s) {
      assert LiveAt(b, after, if i < j || !split then i else i + 1, a, s);
    }
    forall i: nat | LiveAt(b, after, i, a, s) && i != j ensures LiveIn(b, cells, a, s) {
      assert LiveAt(b, cells, if i < j || !split then i else i - 1, a, s);
    }
    if a == Addr(b, cells, j) + REGION_HEADER && s == after[j].size {
      assert LiveAt(b, after, j, a, s);
    }
  }

  lemma TakenOffsets(cells: seq<Cell>, j: nat, n: nat)
    requires j < |cells|
    ensures var cut := if CanSplit(cells, j, n) then SplitCells(cells, j, n) else cells;
      |Taken(cells, j, n)| == |cut| && forall i: nat :: i <= |cut| ==> Offset(Taken(cells, j, n), i) == Offset(cut, i)
  {
    var cut := if CanSplit(cells, j, n) then SplitCells(cells, j, n) else cells;
    forall i: nat | i <= |cut| ensures Offset(Taken(cells, j, n), i) == Offset(cut, i) {
      OffsetPrefix(cut, Taken(cells, j, n), i);
    }
  }

  /** Merging two free regions moves no object. */
  lemma MergeLive(b: nat, cells: seq<Cell>, k: nat, a: nat, s: nat)
    requires k + 1 < |cells| && cells[k].free && cells[k + 1].free
    ensures LiveIn(b, MergeCells(cells, k), a, s) <==> LiveIn(b, cells, a, s)
  {
    var after := MergeCells(cells, k);
    MergeOffsets(cells, k);
    MergedCells(cells, k);
    hide Offset, MergeCells;
    forall i: nat | LiveAt(b, cells, i, a, s) ensures LiveIn(b, after, a, s) {
      assert LiveAt(b, after, if i < k then i else i - 1, a, s);
    }
    forall i: nat | LiveAt(b, after, i, a, s) ensures LiveIn(b, cells, a, s) {
      assert LiveAt(b, cells, if i < k then i else i + 1, a, s);
    }
  }

  /** Giving back a region removes its object and moves no other. */
  lemma FreedLive(b: nat, cells: seq<Cell>, j: nat, a: nat, s: nat)
    requires j < |cells| && !cells[j].free
    ensures LiveIn(b, Freed(cells, j), a, s) <==> LiveIn(b, cells, a, s) && a != Addr(b, cells, j) + REGION_HEADER
  {
    hide MergeCells;
    var marked, h := SetCell(cells, j, Cell(true, cells[j].size)), Holder(cells, j);
    MarkedLive(b, cells, j, a, s);
    if h < j {
      MergeLive(b, marked, j - 1, a, s);
      MergedCells(marked, j - 1);
    }
    var left := if h < j then MergeCells(marked, j - 1) else marked;
    if h + 1 < |left| && left[h + 1].free {
      MergeLive(b, left, h, a, s);
    }
  }

  lemma MarkedLive(b: nat, cells: seq<Cell>, j: nat, a: nat, s: nat)
    requires j < |cells| && !cells[j].free
    ensures LiveIn(b, SetCell(cells, j, Cell(true, cells[j].size)), a, s) <==> LiveIn(b, cells, a, s) && a != Addr(b, cells, j) + REGION_HEADER
  {
    hide Offset;
    var marked := SetCell(cells, j, Cell(true, cells[j].size));
    forall i: nat | i <= |cells| ensures Offset(marked, i) == Offset(cells, i) {
      OffsetPrefix(cells, marked, i);
    }
    forall i: nat | LiveAt(b, cells, i, a, s) && a != Addr(b, cells, j) + REGION_HEADER ensures LiveIn(b, marked, a, s) {
      assert LiveAt(b, marked, i, a, s);
    }
    forall i: nat | LiveAt(b, marked, i, a, s) ensures LiveIn(b, cells, a, s) && a != Addr(b, cells, j) + REGION_HEADER {
      assert LiveAt(b, cells, i, a, s);
      if a == Addr(b, cells, j) + REGION_HEADER { AddrInjective(b, cells, i, j); }
    }
  }

  // ---------------------------------------------------------------------------------------------
  // Lists of blocks

  function LinksOf(list: seq<nat>, i: nat): Block
    requires i < |list|
  {
    Block(if i + 1 < |list| then list[i + 1] else NULL, if i > 0 then list[i - 1] else NULL)
  }

  ghost predicate ListLinked(blocks: map<nat, Block>, list: seq<nat>) {
    forall i :: 0 <= i < |list| ==> list[i] != NULL && list[i] in blocks && blocks[list[i]] == LinksOf(list, i)
  }

  predicate Distinct(list: seq<nat>) {
    forall i, j :: 0 <= i < j < |list| ==> list[i] != list[j]
  }

  function HeadOf(list: seq<nat>): nat {
    if list == [] then NULL else list[0]
  }

  function SetBefore(blocks: map<nat, Block>, b: nat, prev: nat): map<nat, Block> {
    if b in blocks then blocks[b := blocks[b].(prev := prev)] else blocks
  }

  function SetAfter(blocks: map<nat, Block>, b: nat, next: nat): map<nat, Block> {
    if b in blocks then blocks[b := blocks[b].(next := next)] else blocks
  }

  /** `grow_heap` puts the new block in front. */
  function Pushed(blocks: map<nat, Block>, head: nat, b: nat): map<nat, Block> {
    var added := blocks[b := Block(head, NULL)];
    if head != NULL then SetBefore(added, head, b) else added
  }

  /** `unmap` takes a block out of its list. */
  function Unchained(blocks: map<nat, Block>, b: nat): map<nat, Block>
    requires b in blocks
  {
    var ahead := if blocks[b].next != NULL then SetBefore(blocks, blocks[b].next, blocks[b].prev) else blocks;
    if blocks[b].prev != NULL then SetAfter(ahead, blocks[b].prev, blocks[b].next) else ahead
  }

  function Without(list: seq<nat>, i: nat): seq<nat>
    requires i < |list|
  {
    list[..i] + list[i + 1..]
  }

  lemma PushLinked(blocks: map<nat, Block>, list: seq<nat>, b: nat)
    requires ListLinked(blocks, list) && Distinct(list) && b != NULL && b !in list
    ensures ListLinked(Pushed(blocks, HeadOf(list), b), [b] + list) && Distinct([b] + list)
  {
    var list', blocks' := [b] + list, Pushed(blocks, HeadOf(list), b);
    forall i | 0 <= i < |list'| ensures list'[i] != NULL && list'[i] in blocks' && blocks'[list'[i]] == LinksOf(list', i) {
      if i > 0 {
        assert list'[i] == list[i - 1] && list[i - 1] in list;
        if i > 1 { assert list[0] != list[i - 1]; }
      }
    }
  }

  lemma UnchainWrites(blocks: map<nat, Block>, b: nat)
    requires b in blocks && blocks[b].next != b && blocks[b].prev != b && (blocks[b].next != NULL ==> blocks[b].next != blocks[b].prev)
    ensures var blocks', next, prev := Unchained(blocks, b), blocks[b].next, blocks[b].prev;
      && (forall a :: a != next && a != prev ==> (a in blocks' <==> a in blocks) && (a in blocks ==> blocks'[a] == blocks[a]))
      && (next != NULL && next in blocks ==> next in blocks' && blocks'[next] == blocks[next].(prev := prev))
      && (prev != NULL && prev in blocks ==> prev in blocks' && blocks'[prev] == blocks[prev].(next := next))
      && (forall a :: a in blocks' <==> a in blocks)
  {}

  lemma WithoutLinks(list: seq<nat>, i: nat, o: nat)
    requires i < |list| && o < |list| && o != i
    ensures var k := if o < i then o else o - 1;
      && k < |Without(list, i)| && Without(list, i)[k] == list[o]
      && LinksOf(Without(list, i), k) == Block(
           if o + 1 == i then LinksOf(list, i).next else LinksOf(list, o).next,
           if o == i + 1 then LinksOf(list, i).prev else LinksOf(list, o).prev)
  {}

  lemma DistinctAt(list: seq<nat>, i: nat, o: nat)
    requires Distinct(list) && i < |list| && o < |list|
    ensures list[i] == list[o] <==> i == o
  {}

  /** A list without one of its blocks. */
  function Removed(list: seq<nat>, b: nat): seq<nat> {
    if list == [] then [] else if list[0] == b then list[1..] else [list[0]] + Removed(list[1..], b)
  }

  lemma {:induction false} RemovedAt(list: seq<nat>, i: nat)
    requires i < |list| && Distinct(list)
    ensures Removed(list, list[i]) == Without(list, i)
    decreases |list|
  {
    if i > 0 {
      assert list[0] != list[i];
      RemovedAt(list[1..], i - 1);
      assert list[1..][i - 1] == list[i];
    }
  }

  lemma RemainingLink(blocks: map<nat, Block>, list: seq<nat>, i: nat, o: nat)
    requires ListLinked(blocks, list) && Distinct(list) && i < |list| && o < |list| && o != i
    ensures var k, blocks' := if o < i then o else o - 1, Unchained(blocks, list[i]);
      k < |Without(list, i)| && Without(list, i)[k] == list[o] && list[o] in blocks' && blocks'[list[o]] == LinksOf(Without(list, i), k)
  {
    hide Unchained, Distinct, Without;
    assert blocks[list[i]] == LinksOf(list, i) && blocks[list[o]] == LinksOf(list, o) && list[o] != NULL;
    DistinctAt(list, i, o);
    if i + 1 < |list| { DistinctAt(list, i + 1, o); DistinctAt(list, i + 1, i); }
    if i > 0 { DistinctAt(list, i - 1, o); DistinctAt(list, i - 1, i); }
    if i > 0 && i + 1 < |list| { DistinctAt(list, i - 1, i + 1); }
    assert i + 1 < |list| ==> list[i + 1] != NULL;
    assert i > 0 ==> list[i - 1] != NULL;
    hide ListLinked;
    UnchainWrites(blocks, list[i]);
    WithoutLinks(list, i, o);
  }

  lemma RemoveLinked(blocks: map<nat, Block>, list: seq<nat>, i: nat)
    requires ListLinked(blocks, list) && Distinct(list) && i < |list|
    ensures ListLinked(Unchained(blocks, list[i]), Without(list, i)) && Distinct(Without(list, i))
    ensures HeadOf(Without(list, i)) == if blocks[list[i]].prev == NULL then blocks[list[i]].next else HeadOf(list)
  {
    hide Unchained, LinksOf;
    var list', blocks' := Without(list, i), Unchained(blocks, list[i]);
    forall k | 0 <= k < |list'| ensures list'[k] != NULL && list'[k] in blocks' && blocks'[list'[k]] == LinksOf(list', k) {
      RemainingLink(blocks, list, i, if k < i then k else k + 1);
    }
    FirstLinks(blocks, list, i);
  }

  lemma FirstLinks(blocks: map<nat, Block>, list: seq<nat>, i: nat)
    requires ListLinked(blocks, list) && i < |list|
    ensures HeadOf(Without(list, i)) == if blocks[list[i]].prev == NULL then blocks[list[i]].next else HeadOf(list)
  {
    assert blocks[list[i]] == LinksOf(list, i);
  }

  /** Lists without common blocks do not feel each other's changes. */
  lemma OtherList(blocks: map<nat, Block>, blocks': map<nat, Block>, list: seq<nat>)
    requires ListLinked(blocks, list)
    requires forall b :: b in list ==> b in blocks' && (b in blocks ==> blocks'[b] == blocks[b])
    ensures ListLinked(blocks', list)
  {
    forall i | 0 <= i < |list| ensures list[i] != NULL && list[i] in blocks' && blocks'[list[i]] == LinksOf(list, i) {
      assert list[i] in list;
    }
  }

  // ---------------------------------------------------------------------------------------------
  // The heap as a whole

  function SetCells(l: Layout, b: nat, cells: seq<Cell>): Layout
    requires b in l.blks
  {
    l.(blks := l.blks[b := Blk(l.blks[b].kind, cells)])
  }

  /** Writes that stay inside block `b`. */
  ghost predicate WithinBlock(regions: map<nat, Region>, regions': map<nat, Region>, b: nat, kind: nat) {
    forall a :: a < b || b + KindSize(kind) <= a ==> (a in regions' <==> a in regions) && (a in regions ==> regions'[a] == regions[a])
  }

  /** A block whose regions still fill it, in a heap whose other blocks were not touched. */
  lemma Retiled(regions: map<nat, Region>, regions': map<nat, Region>, blks: map<nat, Blk>, b: nat, cells': seq<Cell>)
    requires TileInv(regions, blks) && b in blks && Linked(regions', b, cells') && cells' != []
    requires Offset(cells', |cells'|) == Offset(blks[b].cells, |blks[b].cells|)
    requires WithinBlock(regions, regions', b, blks[b].kind)
    ensures TileInv(regions', blks[b := Blk(blks[b].kind, cells')])
  {
    hide Offset, KindSize;
    var blks' := blks[b := Blk(blks[b].kind, cells')];
    assert Tiled(b, blks[b]);
    forall c | c in blks' ensures Tiled(c, blks'[c]) && Linked(regions', c, blks'[c].cells) {
      if c != b {
        assert Tiled(c, blks[c]) && Linked(regions, c, blks[c].cells) && Apart(b, blks[b], c, blks[c]);
        forall i: nat ensures HeaderOk(regions', c, blks[c].cells, i) {
          assert HeaderOk(regions, c, blks[c].cells, i);
          if i < |blks[c].cells| { Inside(c, blks[c], i); }
        }
      }
    }
    forall c, d | c in blks' && d in blks' && c != d ensures Apart(c, blks'[c], d, blks'[d]) {
      assert Apart(c, blks[c], d, blks[d]);
    }
  }

  lemma SplitTiled(regions: map<nat, Region>, blks: map<nat, Blk>, b: nat, j: nat, n: nat)
    requires TileInv(regions, blks) && b in blks && CanSplit(blks[b].cells, j, n)
    ensures HeaderOk(regions, b, blks[b].cells, j)
    ensures TileInv(SplitRegions(regions, Addr(b, blks[b].cells, j), n), blks[b := Blk(blks[b].kind, SplitCells(blks[b].cells, j, n))])
  {
    hide SplitRegions, Offset, SplitCells, Linked, KindSize;
    var cells, r := blks[b].cells, Addr(b, blks[b].cells, j);
    assert Tiled(b, blks[b]);
    SplitLinked(regions, b, cells, j, n);
    LinkedAt(regions, b, cells, j);
    Inside(b, blks[b], j);
    if j + 1 < |cells| { Inside(b, blks[b], j + 1); OffsetGrows(cells, j, j + 1); }
    SplitWrites(regions, r, n);
    SplitLength(cells, j, n);
    Retiled(regions, SplitRegions(regions, r, n), blks, b, SplitCells(cells, j, n));
  }

  lemma SplitLength(cells: seq<Cell>, j: nat, n: nat)
    requires CanSplit(cells, j, n)
    ensures |SplitCells(cells, j, n)| == |cells| + 1
  {}

  lemma MergeTiled(regions: map<nat, Region>, blks: map<nat, Blk>, b: nat, j: nat)
    requires TileInv(regions, blks) && b in blks && j + 1 < |blks[b].cells|
    ensures HeaderOk(regions, b, blks[b].cells, j) && HeaderOk(regions, b, blks[b].cells, j + 1)
    ensures TileInv(MergeRegions(regions, Addr(b, blks[b].cells, j)), blks[b := Blk(blks[b].kind, MergeCells(blks[b].cells, j))])
  {
    hide MergeRegions, Offset, MergeCells, Linked, KindSize;
    var cells, r := blks[b].cells, Addr(b, blks[b].cells, j);
    assert Tiled(b, blks[b]);
    MergeLinked(regions, b, cells, j);
    LinkedAt(regions, b, cells, j);
    LinkedAt(regions, b, cells, j + 1);
    Inside(b, blks[b], j);
    Inside(b, blks[b], j + 1);
    OffsetGrows(cells, j, j + 1);
    if j + 2 < |cells| { Inside(b, blks[b], j + 2); OffsetGrows(cells, j, j + 2); OffsetGrows(cells, j + 1, j + 2); }
    MergeWrites(regions, r);
    MergedCells(cells, j);
    Retiled(regions, MergeRegions(regions, r), blks, b, MergeCells(cells, j));
  }

  function SetFree(regions: map<nat, Region>, r: nat, free: bool): map<nat, Region>
    requires r in regions
  {
    regions[r := regions[r].(free := free)]
  }

  lemma MarkTiled(regions: map<nat, Region>, blks: map<nat, Blk>, b: nat, j: nat, free: bool)
    requires TileInv(regions, blks) && b in blks && j < |blks[b].cells|
    ensures HeaderOk(regions, b, blks[b].cells, j)
    ensures TileInv(SetFree(regions, Addr(b, blks[b].cells, j), free),
                    blks[b := Blk(blks[b].kind, SetCell(blks[b].cells, j, Cell(free, blks[b].cells[j].size)))])
  {
    hide Offset, KindSize;
    var cells, r := blks[b].cells, Addr(b, blks[b].cells, j);
    LinkedAt(regions, b, cells, j);
    var cells', regions' := SetCell(cells, j, Cell(free, cells[j].size)), SetFree(regions, r, free);
    assert Tiled(b, blks[b]);
    Inside(b, blks[b], j);
    forall i: nat ensures HeaderOk(regions', b, cells', i) {
      LinkedAt(regions, b, cells, i);
      if i < |cells| && i != j { assert Addr(b, cells, i) != r by { if Addr(b, cells, i) == r { AddrInjective(b, cells, i, j); } } }
      if i < |cells| { OffsetPrefix(cells, cells', i); }
      if i + 1 < |cells| { OffsetPrefix(cells, cells', i + 1); }
      if 0 < i < |cells| { OffsetPrefix(cells, cells', i - 1); }
    }
    OffsetPrefix(cells, cells', |cells|);
    Retiled(regions, regions', blks, b, cells');
  }

  /** A mapping is new memory: apart from every block. */
  ghost predicate NewMapping(blks: map<nat, Blk>, b: nat, kind: nat) {
    && b > 0 && b !in blks && b + KindSize(kind) <= SIZE_LIMIT
    && forall c :: c in blks ==> b + KindSize(kind) <= c || c + KindSize(blks[c].kind) <= b
  }

  function OneRegion(kind: nat): seq<Cell>
    requires kind < 3
  {
    [Cell(true, KindSize(kind) - BLOCK_HEADER - REGION_HEADER)]
  }

  lemma GrowTiled(regions: map<nat, Region>, blks: map<nat, Blk>, b: nat, kind: nat)
    requires TileInv(regions, blks) && kind < 3 && NewMapping(blks, b, kind)
    ensures TileInv(regions[b + BLOCK_HEADER := Region(true, KindSize(kind) - BLOCK_HEADER - REGION_HEADER, NULL, NULL)], blks[b := Blk(kind, OneRegion(kind))])
  {
    var cells := OneRegion(kind);
    var regions' := regions[b + BLOCK_HEADER := Region(true, cells[0].size, NULL, NULL)];
    var blks' := blks[b := Blk(kind, cells)];
    assert Offset(cells, 1) == Offset(cells, 0) + REGION_HEADER + cells[0].size;
    forall c | c in blks' ensures Tiled(c, blks'[c]) && Linked(regions', c, blks'[c].cells) {
      if c != b {
        assert Tiled(c, blks[c]) && Linked(regions, c, blks[c].cells);
        forall i: nat ensures HeaderOk(regions', c, blks[c].cells, i) {
          LinkedAt(regions, c, blks[c].cells, i);
          if i < |blks[c].cells| { Inside(c, blks[c], i); }
        }
      } else {
        forall i: nat ensures HeaderOk(regions', b, cells, i) {}
      }
    }
    forall c, d | c in blks' && d in blks' && c != d ensures Apart(c, blks'[c], d, blks'[d]) {
      assert c != b && d != b ==> Apart(c, blks[c], d, blks[d]);
    }
  }

  lemma UnmapTiled(regions: map<nat, Region>, blks: map<nat, Blk>, b: nat)
    requires TileInv(regions, blks)
    ensures TileInv(regions, blks - {b})
  {}

  /** An object of `s` bytes at `a` is in use. */
  ghost predicate Live(l: Layout, a: nat, s: nat) {
    exists b :: b in l.blks && LiveIn(b, l.blks[b].cells, a, s)
  }

  /** Changing the regions of one block changes the objects of that block only. */
  lemma SetCellsLive(l: Layout, b: nat, cells: seq<Cell>, a: nat, s: nat)
    requires b in l.blks
    ensures Live(SetCells(l, b, cells), a, s) <==> LiveIn(b, cells, a, s) || exists c :: c in l.blks && c != b && LiveIn(c, l.blks[c].cells, a, s)
  {
    hide LiveIn;
    var l' := SetCells(l, b, cells);
    if LiveIn(b, cells, a, s) {
      assert b in l'.blks;
    }
    forall c | c in l.blks && c != b && LiveIn(c, l.blks[c].cells, a, s) ensures Live(l', a, s) {
      assert c in l'.blks && LiveIn(c, l'.blks[c].cells, a, s);
    }
  }
}
