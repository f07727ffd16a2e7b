/** Physical pages, two-level page tables and reference counts: what each count counts, and the
    effect of single updates on it. */
module PmapModel {
  import opened Wrappers
  import opened Bitmaps
  import opened Mmu

  const NULL := -1
  const UTOP: nat := 0xeec0_0000
  const PDX_UTOP := 955
  const PDX_UVPT := 957

  datatype PageInfo = PageInfo(ref: nat, link: int)

  /** The 1024 words of a physical page, as a directory or a table. */
  type Frame = f: seq<nat> | |f| == NPTENTRIES witness seq(NPTENTRIES, _ => 0)

  datatype Mem = Mem(pages: seq<PageInfo>, frames: seq<Frame>, head: int)

  /** Everything that counts towards `pp_ref`: a live page directory, a directory entry below UTOP
      that names a table, a table entry below UTOP that maps a page, and the reference that
      `page_insert` takes before it has an entry to put it in. */
  datatype Ref =
    | DirRef(dir: nat)
    | TableRef(dir: nat, pdx: nat)
    | PageRef(dir: nat, pdx: nat, ptx: nat)
    | Held

  /** `refs` sends each reference to its page; `free` is the free list; `loose` pages were handed
      out and are not referenced yet; `reserved` pages are never managed; `kern` is the kernel's
      directory, the template for the part above UTOP. */
  datatype Books = Books(refs: map<Ref, nat>, free: seq<nat>, loose: set<nat>, dirs: set<nat>, reserved: set<nat>, kern: Frame)

  function Word(frames: seq<Frame>, p: nat, k: nat): nat {
    if p < |frames| && k < NPTENTRIES then frames[p][k] else 0
  }

  function WordOf(frames: seq<Frame>, r: Ref): nat {
    match r
    case DirRef(_) => 0
    case TableRef(d, x) => Word(frames, d, x)
    case PageRef(d, x, y) => Word(frames, Word(frames, d, x) / PGSIZE, y)
    case Held => 0
  }

  predicate IsRef(frames: seq<Frame>, dirs: set<nat>, r: Ref) {
    match r
    case DirRef(d) => d in dirs
    case TableRef(d, x) => d in dirs && x < PDX_UTOP && WordOf(frames, r) != 0
    case PageRef(d, x, y) => d in dirs && x < PDX_UTOP && y < NPTENTRIES && Word(frames, d, x) != 0 && WordOf(frames, r) != 0
    case Held => false
  }

  function Target(frames: seq<Frame>, r: Ref): nat {
    if r.DirRef? then r.dir else WordOf(frames, r) / PGSIZE
  }

  predicate Shareable(r: Ref) {
    r.PageRef? || r.Held?
  }

  /** The references are exactly those the directories and tables hold. */
  ghost predicate RefsExact(frames: seq<Frame>, b: Books) {
    && (forall r :: r != Held ==> (r in b.refs <==> IsRef(frames, b.dirs, r)))
    && (forall r :: r in b.refs && r != Held ==> b.refs[r] == Target(frames, r))
  }

  /** An entry that is used is present, and that of a table also lets the user read and write. */
  predicate EntryBits(r: Ref, w: nat) {
    w % 2 == 1 && (r.TableRef? ==> w % 8 == PTE_P + PTE_W + PTE_U)
  }

  ghost predicate RefsTargets(frames: seq<Frame>, b: Books) {
    && (forall r :: r in b.refs ==> b.refs[r] < |frames| && b.refs[r] !in b.reserved)
    && (forall r :: r in b.refs && (r.TableRef? || r.PageRef?) ==> EntryBits(r, WordOf(frames, r)))
  }

  /** Directories and tables have one reference each, so no address space shares them. */
  ghost predicate Unshared(b: Books) {
    forall r, s :: r in b.refs && s in b.refs && b.refs[r] == b.refs[s] ==> r == s || (Shareable(r) && Shareable(s))
  }

  /** Above UTOP every directory is the kernel's, but for its own window at UVPT. */
  ghost predicate KernelPart(frames: seq<Frame>, b: Books) {
    forall d, k :: d in b.dirs && PDX_UTOP <= k < NPDENTRIES ==>
      Word(frames, d, k) == if k == PDX_UVPT then MakePte(d, PTE_U) else b.kern[k]
  }

  ghost predicate RefsInv(frames: seq<Frame>, b: Books) {
    RefsExact(frames, b) && RefsTargets(frames, b) && Unshared(b) && KernelPart(frames, b)
  }

  function Holders(refs: map<Ref, nat>, p: nat): set<Ref> {
    set r | r in refs && refs[r] == p
  }

  /** `pp_ref` of every managed page is the number of references to it. */
  ghost predicate CountInv(pages: seq<PageInfo>, b: Books) {
    forall p :: 0 <= p < |pages| && p !in b.reserved ==> pages[p].ref == |Holders(b.refs, p)|
  }

  /** The links lead from `head` through `free` to the null link. */
  ghost predicate Chain(pages: seq<PageInfo>, head: int, free: seq<nat>)
    decreases |free|
  {
    if free == [] then head == NULL
    else head == free[0] && free[0] < |pages| && free[0] !in free[1..] && Chain(pages, pages[free[0]].link, free[1..])
  }

  /** The free list is a duplicate-free chain; pages off it have a null link. */
  ghost predicate ChainInv(pages: seq<PageInfo>, head: int, free: seq<nat>) {
    Chain(pages, head, free) && (forall p :: 0 <= p < |pages| && p !in free ==> pages[p].link == NULL)
  }

  /** An unreferenced page is on the free list or in the hands of the caller that allocated it. */
  ghost predicate IdleInv(pages: seq<PageInfo>, b: Books) {
    && (forall p :: 0 <= p < |pages| && p !in b.reserved ==> (pages[p].ref == 0 <==> p in b.free || p in b.loose))
    && (forall p :: p in b.loose ==> p < |pages| && p !in b.free && p !in b.reserved)
    && (forall p :: p in b.free ==> p !in b.reserved)
  }

  ghost predicate PagesInv(pages: seq<PageInfo>, head: int, b: Books) {
    CountInv(pages, b) && ChainInv(pages, head, b.free) && IdleInv(pages, b)
  }

  ghost predicate Inv(m: Mem, b: Books) {
    |m.pages| == |m.frames| && RefsInv(m.frames, b) && PagesInv(m.pages, m.head, b)
  }

  // ---------------------------------------------------------------------------------------------
  // Counting

  lemma HoldersAdd(refs: map<Ref, nat>, r: Ref, p: nat, q: nat)
    requires r !in refs
    ensures |Holders(refs[r := p], q)| == |Holders(refs, q)| + if q == p then 1 else 0
  {
    assert Holders(refs[r := p], q) == Holders(refs, q) + if q == p then {r} else {};
  }

  lemma HoldersRemove(refs: map<Ref, nat>, r: Ref, q: nat)
    requires r in refs
    ensures |Holders(refs, q)| == |Holders(refs - {r}, q)| + if q == refs[r] then 1 else 0
  {
    assert Holders(refs, q) == Holders(refs - {r}, q) + if q == refs[r] then {r} else {};
  }

  /** An unreferenced page is no directory, no table and mapped nowhere. */
  lemma NoHolders(refs: map<Ref, nat>, p: nat)
    requires |Holders(refs, p)| == 0
    ensures forall r :: r in refs ==> refs[r] != p
  {
    forall r | r in refs ensures refs[r] != p {
      assert r in Holders(refs, p) <==> refs[r] == p;
    }
  }

  /** What a count counts: the live directories stored in the page, the directory entries below UTOP
      that use it as a table, and the table entries below UTOP that map it. */
  lemma CountMeans(frames: seq<Frame>, pages: seq<PageInfo>, head: int, b: Books, p: nat, r: Ref)
    requires RefsInv(frames, b) && PagesInv(pages, head, b) && Held !in b.refs && p < |pages| && p !in b.reserved
    ensures pages[p].ref == |Holders(b.refs, p)|
    ensures r in Holders(b.refs, p) <==> IsRef(frames, b.dirs, r) && Target(frames, r) == p
  {
    assert r != Held ==> (r in b.refs <==> IsRef(frames, b.dirs, r));
  }

  /** The free list has no duplicates, and its pages have count 0. */
  lemma FreePagesIdle(pages: seq<PageInfo>, head: int, b: Books)
    requires PagesInv(pages, head, b)
    ensures forall j, k :: 0 <= j < k < |b.free| ==> b.free[j] != b.free[k]
    ensures forall j :: 0 <= j < |b.free| ==> b.free[j] < |pages| && pages[b.free[j]].ref == 0
  {
    ChainDistinct(pages, head, b.free);
    hide Chain, Holders;
    forall j | 0 <= j < |b.free| ensures b.free[j] < |pages| && pages[b.free[j]].ref == 0 {
      assert b.free[j] in b.free;
    }
  }

  lemma {:induction false} ChainDistinct(pages: seq<PageInfo>, head: int, free: seq<nat>)
    requires Chain(pages, head, free)
    ensures forall j, k :: 0 <= j < k < |free| ==> free[j] != free[k]
    ensures forall j :: 0 <= j < |free| ==> free[j] < |pages|
    decreases |free|
  {
    if free != [] {
      ChainDistinct(pages, pages[free[0]].link, free[1..]);
      assert forall k :: 1 <= k < |free| ==> free[k] in free[1..];
      assert forall j :: 1 <= j < |free| ==> free[j] == free[1..][j - 1];
    }
  }

  // ---------------------------------------------------------------------------------------------
  // The page list

  function Unlinked(pages: seq<PageInfo>, p: nat): seq<PageInfo>
    requires p < |pages|
  {
    pages[p := pages[p].(link := NULL)]
  }

  lemma {:induction false} SameChain(pages: seq<PageInfo>, pages': seq<PageInfo>, head: int, free: seq<nat>)
    requires Chain(pages, head, free) && |pages'| == |pages|
    requires forall p :: 0 <= p < |pages| && p in free ==> pages'[p].link == pages[p].link
    ensures Chain(pages', head, free)
    decreases |free|
  {
    if free != [] {
      SameChain(pages, pages', pages[free[0]].link, free[1..]);
    }
  }

  lemma PopChain(pages: seq<PageInfo>, head: int, free: seq<nat>)
    requires ChainInv(pages, head, free) && head != NULL
    ensures free != [] && head == free[0] && 0 <= head < |pages| && head !in free[1..]
    ensures ChainInv(Unlinked(pages, head), pages[head].link, free[1..])
  {
    assert free == [head] + free[1..];
    SameChain(pages, Unlinked(pages, head), pages[head].link, free[1..]);
  }

  /** Taking the first free page. */
  lemma PopFree(pages: seq<PageInfo>, head: int, b: Books)
    requires PagesInv(pages, head, b) && head != NULL
    ensures b.free != [] && head == b.free[0] && 0 <= head < |pages| && head !in b.reserved
    ensures |Holders(b.refs, head)| == 0 && pages[head].ref == 0 && head !in b.loose && head !in b.free[1..]
    ensures PagesInv(Unlinked(pages, head), pages[head].link, b.(free := b.free[1..], loose := b.loose + {b.free[0]}))
  {
    hide ChainInv, Holders;
    PopChain(pages, head, b.free);
    assert b.free == [head] + b.free[1..];
    assert head in b.free;
  }

  /** `page_free` on a page nobody references: the list grows at its head. */
  function Pushed(pages: seq<PageInfo>, head: int, p: nat): seq<PageInfo>
    requires p < |pages|
  {
    pages[p := pages[p].(link := head)]
  }

  lemma PushChain(pages: seq<PageInfo>, head: int, free: seq<nat>, p: nat)
    requires ChainInv(pages, head, free) && p < |pages| && p !in free
    ensures ChainInv(Pushed(pages, head, p), p, [p] + free)
  {
    var free' := [p] + free;
    assert free'[1..] == free;
    SameChain(pages, Pushed(pages, head, p), head, free);
  }

  lemma SameLinks(pages: seq<PageInfo>, pages': seq<PageInfo>, head: int, free: seq<nat>)
    requires ChainInv(pages, head, free) && |pages'| == |pages|
    requires forall p :: 0 <= p < |pages| ==> pages'[p].link == pages[p].link
    ensures ChainInv(pages', head, free)
  {
    SameChain(pages, pages', head, free);
  }

  /** A reference more. */
  function IncRef(pages: seq<PageInfo>, p: nat): seq<PageInfo>
    requires p < |pages|
  {
    pages[p := pages[p].(ref := pages[p].ref + 1)]
  }

  lemma IncRefOk(pages: seq<PageInfo>, head: int, b: Books, r: Ref, p: nat)
    requires PagesInv(pages, head, b) && p < |pages| && p !in b.reserved && p !in b.free && r !in b.refs
    ensures PagesInv(IncRef(pages, p), head, b.(refs := b.refs[r := p], loose := b.loose - {p}))
  {
    var b' := b.(refs := b.refs[r := p], loose := b.loose - {p});
    forall q | 0 <= q < |pages| ensures |Holders(b'.refs, q)| == |Holders(b.refs, q)| + if q == p then 1 else 0 {
      HoldersAdd(b.refs, r, p, q);
    }
    hide Holders;
    SameLinks(pages, IncRef(pages, p), head, b.free);
    hide ChainInv;
  }

  /** `page_decref`: a reference less, and the page freed with the last one. */
  function DecRefPages(pages: seq<PageInfo>, head: int, p: nat): seq<PageInfo>
    requires p < |pages| && pages[p].ref > 0
  {
    var pages' := pages[p := pages[p].(ref := pages[p].ref - 1)];
    if pages'[p].ref == 0 then Pushed(pages', head, p) else pages'
  }

  function DecRefHead(pages: seq<PageInfo>, head: int, p: nat): int
    requires p < |pages| && pages[p].ref > 0
  {
    if pages[p].ref == 1 then p else head
  }

  /** The books without reference `r`. */
  function Released(pages: seq<PageInfo>, b: Books, r: Ref): Books
    requires r in b.refs && b.refs[r] < |pages|
  {
    b.(refs := b.refs - {r}, free := (if pages[b.refs[r]].ref == 1 then [b.refs[r]] else []) + b.free)
  }

  lemma HeldIsCounted(pages: seq<PageInfo>, head: int, b: Books, r: Ref)
    requires PagesInv(pages, head, b) && r in b.refs && b.refs[r] < |pages| && b.refs[r] !in b.reserved
    ensures pages[b.refs[r]].ref > 0 && pages[b.refs[r]].link == NULL && b.refs[r] !in b.free && b.refs[r] !in b.loose
  {
    assert r in Holders(b.refs, b.refs[r]);
  }

  lemma DecRefOk(pages: seq<PageInfo>, head: int, b: Books, r: Ref)
    requires PagesInv(pages, head, b) && r in b.refs && b.refs[r] < |pages| && b.refs[r] !in b.reserved
    ensures pages[b.refs[r]].ref > 0 && pages[b.refs[r]].link == NULL
    ensures PagesInv(DecRefPages(pages, head, b.refs[r]), DecRefHead(pages, head, b.refs[r]), Released(pages, b, r))
  {
    hide ChainInv;
    var p := b.refs[r];
    HeldIsCounted(pages, head, b, r);
    var b' := Released(pages, b, r);
    forall q | 0 <= q < |pages| ensures |Holders(b.refs, q)| == |Holders(b'.refs, q)| + if q == p then 1 else 0 {
      HoldersRemove(b.refs, r, q);
    }
    hide Holders;
    var pages1 := pages[p := pages[p].(ref := pages[p].ref - 1)];
    SameLinks(pages, pages1, head, b.free);
    PushChain(pages1, head, b.free, p);
    assert [] + b.free == b.free;
  }

  /** Replacing one reference by another to the same page changes no count. */
  lemma RenameOk(pages: seq<PageInfo>, head: int, b: Books, r: Ref, s: Ref)
    requires PagesInv(pages, head, b) && r in b.refs && s !in b.refs
    ensures PagesInv(pages, head, b.(refs := (b.refs - {r})[s := b.refs[r]]))
  {
    var refs' := (b.refs - {r})[s := b.refs[r]];
    forall q | 0 <= q < |pages| ensures |Holders(refs', q)| == |Holders(b.refs, q)| {
      HoldersRemove(b.refs, r, q);
      HoldersAdd(b.refs - {r}, s, b.refs[r], q);
    }
    hide Holders;
  }

  // ---------------------------------------------------------------------------------------------
  // Directories and tables

  function SetWord(frames: seq<Frame>, p: nat, k: nat, w: nat): seq<Frame>
    requires p < |frames| && k < NPTENTRIES
  {
    frames[p := frames[p][k := w]]
  }

  /** Both states read the same through reference `r`. */
  predicate SameThrough(frames: seq<Frame>, frames': seq<Frame>, dirs: set<nat>, r: Ref) {
    IsRef(frames', dirs, r) == IsRef(frames, dirs, r) && (IsRef(frames, dirs, r) ==> WordOf(frames', r) == WordOf(frames, r))
  }

  /** Page `q` is the table of directory entry `x`. */
  predicate IsTable(b: Books, d: nat, x: nat, q: nat) {
    TableRef(d, x) in b.refs && b.refs[TableRef(d, x)] == q
  }

  /** Page `q` is a table of directory `d`. */
  ghost predicate OwnTable(refs: map<Ref, nat>, d: nat, q: nat) {
    exists x :: TableRef(d, x) in refs && refs[TableRef(d, x)] == q
  }

  lemma OwnTableIs(refs: map<Ref, nat>, d: nat, x: nat, y: nat, z: nat, q: nat)
    requires TableRef(d, z) in Unlisted(refs, d, x, y) && Unlisted(refs, d, x, y)[TableRef(d, z)] == q
    ensures OwnTable(refs, d, q)
  {}

  /** Where a reference leads: its directory is live, its table is in the directory. */
  lemma RefParents(frames: seq<Frame>, b: Books, r: Ref)
    requires RefsInv(frames, b) && r in b.refs && r != Held
    ensures DirRef(r.dir) in b.refs && b.refs[DirRef(r.dir)] == r.dir && r.dir in b.dirs && r.dir < |frames|
    ensures r.PageRef? ==> TableRef(r.dir, r.pdx) in b.refs && b.refs[TableRef(r.dir, r.pdx)] == Word(frames, r.dir, r.pdx) / PGSIZE
    ensures b.refs[r] == Target(frames, r) && IsRef(frames, b.dirs, r)
  {
    assert IsRef(frames, b.dirs, r);
    assert IsRef(frames, b.dirs, DirRef(r.dir));
    if r.PageRef? {
      assert IsRef(frames, b.dirs, TableRef(r.dir, r.pdx));
    }
  }

  /** A live directory entry names a table that is no directory and no other entry's table. */
  lemma TablesApart(frames: seq<Frame>, b: Books, d: nat, x: nat)
    requires RefsInv(frames, b) && TableRef(d, x) in b.refs
    ensures var t := b.refs[TableRef(d, x)];
      && t == Word(frames, d, x) / PGSIZE && t < |frames| && t !in b.dirs
      && forall e, z {:trigger TableRef(e, z)} :: TableRef(e, z) in b.refs && b.refs[TableRef(e, z)] == t ==> e == d && z == x
  {
    var t := b.refs[TableRef(d, x)];
    RefParents(frames, b, TableRef(d, x));
    forall e | e in b.dirs ensures e != t {
      assert IsRef(frames, b.dirs, DirRef(e));
      assert b.refs[DirRef(e)] == e;
      assert !Shareable(DirRef(e));
    }
    forall e, z | TableRef(e, z) in b.refs && b.refs[TableRef(e, z)] == t ensures e == d && z == x {
      assert TableRef(e, z) == TableRef(d, x) || (Shareable(TableRef(e, z)) && Shareable(TableRef(d, x)));
    }
  }

  function WithFrame(frames: seq<Frame>, p: nat, f: Frame): seq<Frame>
    requires p < |frames|
  {
    frames[p := f]
  }

  /** Writing a frame that is no directory and no table changes no reference. */
  lemma UnheldFrame(frames: seq<Frame>, b: Books, p: nat, f: Frame)
    requires RefsInv(frames, b) && p < |frames| && forall r :: r in b.refs && b.refs[r] == p ==> Shareable(r)
    ensures RefsInv(WithFrame(frames, p, f), b)
    ensures forall r :: r != Held ==> SameThrough(frames, WithFrame(frames, p, f), b.dirs, r)
  {
    var frames' := WithFrame(frames, p, f);
    forall r | r != Held ensures SameThrough(frames, frames', b.dirs, r) {
      if r.dir in b.dirs {
        assert IsRef(frames, b.dirs, DirRef(r.dir));
        assert r.dir != p;
        if r.PageRef? && r.pdx < PDX_UTOP && Word(frames, r.dir, r.pdx) != 0 {
          assert IsRef(frames, b.dirs, TableRef(r.dir, r.pdx));
          assert Word(frames, r.dir, r.pdx) / PGSIZE != p;
        }
      }
    }
    forall d | d in b.dirs ensures d != p {
      assert IsRef(frames, b.dirs, DirRef(d));
    }
    Preserved(frames, frames', b);
  }

  /** When every reference reads the same and directories keep their kernel part, nothing changed. */
  lemma Preserved(frames: seq<Frame>, frames': seq<Frame>, b: Books)
    requires RefsInv(frames, b) && |frames'| == |frames|
    requires forall r :: r != Held ==> SameThrough(frames, frames', b.dirs, r)
    requires forall d, k :: d in b.dirs && PDX_UTOP <= k < NPDENTRIES ==> Word(frames', d, k) == Word(frames, d, k)
    ensures RefsInv(frames', b)
  {
    forall r | r != Held ensures r in b.refs <==> IsRef(frames', b.dirs, r) {
      assert SameThrough(frames, frames', b.dirs, r);
    }
    forall r | r in b.refs && r != Held ensures b.refs[r] == Target(frames', r) && WordOf(frames', r) == WordOf(frames, r) {
      assert SameThrough(frames, frames', b.dirs, r);
    }
  }

  lemma AddHeld(frames: seq<Frame>, b: Books, p: nat)
    requires RefsInv(frames, b) && Held !in b.refs && p < |frames| && p !in b.reserved
    requires forall r :: r in b.refs && b.refs[r] == p ==> r.PageRef?
    ensures RefsInv(frames, b.(refs := b.refs[Held := p], loose := b.loose - {p}))
  {}

  /** Writing entry `y` of a table shows through that entry's reference only. */
  lemma TableWord(frames: seq<Frame>, b: Books, d: nat, x: nat, y: nat, w: nat)
    requires RefsInv(frames, b) && TableRef(d, x) in b.refs && y < NPTENTRIES
    ensures var t := b.refs[TableRef(d, x)];
      && t < |frames|
      && (forall r :: r != Held && r != PageRef(d, x, y) ==> SameThrough(frames, SetWord(frames, t, y, w), b.dirs, r))
      && (forall e, k :: e in b.dirs ==> Word(SetWord(frames, t, y, w), e, k) == Word(frames, e, k))
      && Word(SetWord(frames, t, y, w), t, y) == w
  {
    TablesApart(frames, b, d, x);
    var t := b.refs[TableRef(d, x)];
    var frames' := SetWord(frames, t, y, w);
    forall r | r != Held && r != PageRef(d, x, y) ensures SameThrough(frames, frames', b.dirs, r) {
      if r.PageRef? && r.dir in b.dirs && r.pdx < PDX_UTOP && Word(frames, r.dir, r.pdx) != 0 {
        assert IsRef(frames, b.dirs, TableRef(r.dir, r.pdx));
        assert b.refs[TableRef(r.dir, r.pdx)] == Word(frames, r.dir, r.pdx) / PGSIZE;
      }
    }
  }

  lemma ClearPage(frames: seq<Frame>, b: Books, d: nat, x: nat, y: nat)
    requires RefsInv(frames, b) && PageRef(d, x, y) in b.refs
    ensures TableRef(d, x) in b.refs && b.refs[TableRef(d, x)] == Word(frames, d, x) / PGSIZE < |frames| && y < NPTENTRIES
    ensures RefsInv(SetWord(frames, b.refs[TableRef(d, x)], y, 0), b.(refs := b.refs - {PageRef(d, x, y)}))
  {
    RefParents(frames, b, PageRef(d, x, y));
    TableWord(frames, b, d, x, y, 0);
    var frames' := SetWord(frames, b.refs[TableRef(d, x)], y, 0);
    var b' := b.(refs := b.refs - {PageRef(d, x, y)});
    hide SetWord;
    assert SameThrough(frames, frames', b.dirs, TableRef(d, x));
    assert !IsRef(frames', b.dirs, PageRef(d, x, y));
    Changed(frames, frames', b, b', PageRef(d, x, y));
  }

  /** Only reference `s` reads differently, and the books agree on it. */
  lemma Changed(frames: seq<Frame>, frames': seq<Frame>, b: Books, b': Books, s: Ref)
    requires RefsInv(frames, b) && |frames'| == |frames| && s != Held
    requires forall r :: r != Held && r != s ==> SameThrough(frames, frames', b.dirs, r)
    requires forall d, k :: d in b.dirs && PDX_UTOP <= k < NPDENTRIES ==> Word(frames', d, k) == Word(frames, d, k)
    requires b'.dirs == b.dirs && b'.reserved == b.reserved && b'.kern == b.kern
    requires forall r :: r != Held && r != s ==> (r in b'.refs <==> r in b.refs)
    requires forall r :: r != s && r in b'.refs ==> r in b.refs && b'.refs[r] == b.refs[r]
    requires s in b'.refs <==> IsRef(frames', b.dirs, s)
    requires s in b'.refs ==> b'.refs[s] == Target(frames', s) && EntryBits(s, WordOf(frames', s))
    requires s in b'.refs ==> b'.refs[s] < |frames| && b'.refs[s] !in b.reserved
    requires s in b'.refs ==> forall r :: r in b'.refs && r != s && b'.refs[r] == b'.refs[s] ==> Shareable(r) && Shareable(s)
    requires !s.DirRef?
    ensures RefsInv(frames', b')
  {
    forall r | r != Held ensures r in b'.refs <==> IsRef(frames', b'.dirs, r) {
      if r != s { assert SameThrough(frames, frames', b.dirs, r); }
    }
    forall r | r in b'.refs && r != Held && r != s
      ensures b'.refs[r] == Target(frames', r) && WordOf(frames', r) == WordOf(frames, r)
    {
      assert SameThrough(frames, frames', b.dirs, r);
    }
  }

  /** The held reference settles in entry `y` of the table. */
  lemma SettlePage(frames: seq<Frame>, b: Books, d: nat, x: nat, y: nat, w: nat)
    requires RefsInv(frames, b) && TableRef(d, x) in b.refs && y < NPTENTRIES && PageRef(d, x, y) !in b.refs
    requires Held in b.refs && w / PGSIZE == b.refs[Held] && w % 2 == 1
    ensures b.refs[TableRef(d, x)] < |frames|
    ensures RefsInv(SetWord(frames, b.refs[TableRef(d, x)], y, w), b.(refs := (b.refs - {Held})[PageRef(d, x, y) := b.refs[Held]]))
  {
    RefParents(frames, b, TableRef(d, x));
    TableWord(frames, b, d, x, y, w);
    var frames' := SetWord(frames, b.refs[TableRef(d, x)], y, w);
    var b' := b.(refs := (b.refs - {Held})[PageRef(d, x, y) := b.refs[Held]]);
    hide SetWord;
    assert SameThrough(frames, frames', b.dirs, TableRef(d, x));
    forall r | r in b'.refs && r != PageRef(d, x, y) && b'.refs[r] == b.refs[Held] ensures Shareable(r) {
      assert r == Held || (Shareable(r) && Shareable(Held));
    }
    Changed(frames, frames', b, b', PageRef(d, x, y));
  }

  /** An entry that names another page than the one counted for it puts the tables out of step: no
      reading of them fits the counts any more. */
  lemma OutOfStep(pages: seq<PageInfo>, head: int, frames: seq<Frame>, b: Books, d: nat, x: nat, y: nat, w: nat, head': int, b': Books)
    requires RefsInv(frames, b) && PagesInv(pages, head, b) && TableRef(d, x) in b.refs && y < NPTENTRIES && PageRef(d, x, y) !in b.refs
    requires Held in b.refs && b.refs[Held] < |pages| && w / PGSIZE != b.refs[Held]
    requires b'.dirs == b.dirs && b'.reserved == b.reserved && Held !in b'.refs
    ensures b.refs[TableRef(d, x)] < |frames|
    ensures !(RefsInv(SetWord(frames, b.refs[TableRef(d, x)], y, w), b') && PagesInv(pages, head', b'))
  {
    TableWord(frames, b, d, x, y, w);
    var frames', pp := SetWord(frames, b.refs[TableRef(d, x)], y, w), b.refs[Held];
    HoldersRemove(b.refs, Held, pp);
    assert pages[pp].ref == |Holders(b.refs - {Held}, pp)| + 1;
    if RefsInv(frames', b') {
      Uncounted(frames, frames', b, b', d, x, y, w);
      EqualHolders(b'.refs, b.refs - {Held}, pp);
    }
  }

  lemma EqualHolders(refs: map<Ref, nat>, refs': map<Ref, nat>, p: nat)
    requires forall r :: (r in refs && refs[r] == p) <==> (r in refs' && refs'[r] == p)
    ensures |Holders(refs, p)| == |Holders(refs', p)|
  {
    assert Holders(refs, p) == Holders(refs', p);
  }

  lemma Uncounted(frames: seq<Frame>, frames': seq<Frame>, b: Books, b': Books, d: nat, x: nat, y: nat, w: nat)
    requires RefsInv(frames, b) && RefsInv(frames', b') && Held in b.refs && Held !in b'.refs && b'.dirs == b.dirs && PageRef(d, x, y) !in b.refs
    requires TableRef(d, x) in b.refs && b.refs[TableRef(d, x)] < |frames| && y < NPTENTRIES && w / PGSIZE != b.refs[Held]
    requires frames' == SetWord(frames, b.refs[TableRef(d, x)], y, w)
    ensures forall r :: (r in b'.refs && b'.refs[r] == b.refs[Held]) <==> (r in b.refs - {Held} && b.refs[r] == b.refs[Held])
  {
    RefParents(frames, b, TableRef(d, x));
    TableWord(frames, b, d, x, y, w);
    assert SameThrough(frames, frames', b.dirs, TableRef(d, x));
    assert Word(frames', d, x) == Word(frames, d, x) && WordOf(frames', PageRef(d, x, y)) == w;
    hide SetWord, IsRef, WordOf;
    forall r | r != Held && r != PageRef(d, x, y)
      ensures r in b'.refs <==> r in b.refs
      ensures r in b.refs ==> b'.refs[r] == b.refs[r]
    {
      assert SameThrough(frames, frames', b.dirs, r);
    }
  }

  /** Writing a directory entry shows through that entry and what hangs below it only. */
  lemma DirWord(frames: seq<Frame>, b: Books, d: nat, x: nat, w: nat)
    requires RefsInv(frames, b) && d in b.dirs && x < PDX_UTOP
    ensures d < |frames|
    ensures forall r :: r != Held && r != TableRef(d, x) && !(r.PageRef? && r.dir == d && r.pdx == x) ==> SameThrough(frames, SetWord(frames, d, x, w), b.dirs, r)
    ensures forall e, k :: e in b.dirs && PDX_UTOP <= k ==> Word(SetWord(frames, d, x, w), e, k) == Word(frames, e, k)
    ensures Word(SetWord(frames, d, x, w), d, x) == w
  {
    assert IsRef(frames, b.dirs, DirRef(d));
    var frames' := SetWord(frames, d, x, w);
    forall r | r != Held && r != TableRef(d, x) && !(r.PageRef? && r.dir == d && r.pdx == x)
      ensures SameThrough(frames, frames', b.dirs, r)
    {
      if r.PageRef? && r.dir in b.dirs && r.pdx < PDX_UTOP && Word(frames, r.dir, r.pdx) != 0 {
        assert IsRef(frames, b.dirs, TableRef(r.dir, r.pdx));
        TablesApart(frames, b, r.dir, r.pdx);
      }
    }
  }

  /** A zeroed, unreferenced page becomes the table of an empty directory entry. */
  lemma LinkTable(frames: seq<Frame>, b: Books, d: nat, x: nat, t: nat, w: nat)
    requires RefsInv(frames, b) && d in b.dirs && x < PDX_UTOP && Word(frames, d, x) == 0
    requires t < |frames| && t !in b.reserved && (forall r :: r in b.refs ==> b.refs[r] != t)
    requires forall k :: 0 <= k < NPTENTRIES ==> frames[t][k] == 0
    requires w / PGSIZE == t && EntryBits(TableRef(d, x), w)
    ensures d < |frames| && d != t
    ensures RefsInv(SetWord(frames, d, x, w), b.(refs := b.refs[TableRef(d, x) := t], loose := b.loose - {t}))
    ensures forall r :: r != Held && r != TableRef(d, x) ==> SameThrough(frames, SetWord(frames, d, x, w), b.dirs, r)
  {
    assert IsRef(frames, b.dirs, DirRef(d));
    DirWord(frames, b, d, x, w);
    var frames' := SetWord(frames, d, x, w);
    forall y ensures SameThrough(frames, frames', b.dirs, PageRef(d, x, y)) {
      assert Word(frames', t, y) == 0;
    }
    Changed(frames, frames', b, b.(refs := b.refs[TableRef(d, x) := t], loose := b.loose - {t}), TableRef(d, x));
  }

  /** A directory entry whose table maps nothing is cleared. */
  lemma UnlinkTable(frames: seq<Frame>, b: Books, d: nat, x: nat)
    requires RefsInv(frames, b) && TableRef(d, x) in b.refs
    requires forall y :: PageRef(d, x, y) !in b.refs
    ensures d < |frames| && x < PDX_UTOP
    ensures RefsInv(SetWord(frames, d, x, 0), b.(refs := b.refs - {TableRef(d, x)}))
  {
    RefParents(frames, b, TableRef(d, x));
    DirWord(frames, b, d, x, 0);
    var frames' := SetWord(frames, d, x, 0);
    forall y ensures SameThrough(frames, frames', b.dirs, PageRef(d, x, y)) {
      assert IsRef(frames, b.dirs, PageRef(d, x, y)) ==> PageRef(d, x, y) in b.refs;
    }
    Changed(frames, frames', b, b.(refs := b.refs - {TableRef(d, x)}), TableRef(d, x));
  }

  /** The directory `env_setup_vm` writes: the kernel's, with its own window at UVPT. */
  function NewDirFrame(kern: Frame, p: nat): Frame {
    kern[PDX_UVPT := MakePte(p, PTE_U)]
  }

  lemma OpenDir(frames: seq<Frame>, b: Books, p: nat)
    requires RefsInv(frames, b) && p < |frames| && p !in b.reserved && (forall r :: r in b.refs ==> b.refs[r] != p)
    requires forall k :: 0 <= k < PDX_UTOP ==> b.kern[k] == 0
    ensures p !in b.dirs && DirRef(p) !in b.refs
    ensures RefsInv(WithFrame(frames, p, NewDirFrame(b.kern, p)),
                    b.(refs := b.refs[DirRef(p) := p], loose := b.loose - {p}, dirs := b.dirs + {p}))
  {
    var frames' := WithFrame(frames, p, NewDirFrame(b.kern, p));
    UnheldFrame(frames, b, p, NewDirFrame(b.kern, p));
    assert p !in b.dirs by {
      if p in b.dirs { assert IsRef(frames, b.dirs, DirRef(p)); }
    }
    assert DirRef(p) !in b.refs by {
      assert DirRef(p) in b.refs <==> IsRef(frames, b.dirs, DirRef(p));
    }
    AddDir(frames', b, p);
  }

  /** A directory whose user part is empty becomes live. */
  lemma AddDir(frames: seq<Frame>, b: Books, p: nat)
    requires RefsInv(frames, b) && p < |frames| && p !in b.reserved && p !in b.dirs && (forall r :: r in b.refs ==> b.refs[r] != p)
    requires forall k :: 0 <= k < PDX_UTOP ==> frames[p][k] == 0
    requires forall k :: PDX_UTOP <= k < NPDENTRIES ==> frames[p][k] == if k == PDX_UVPT then MakePte(p, PTE_U) else b.kern[k]
    ensures RefsInv(frames, b.(refs := b.refs[DirRef(p) := p], loose := b.loose - {p}, dirs := b.dirs + {p}))
  {
    hide MakePte;
    var b' := b.(refs := b.refs[DirRef(p) := p], loose := b.loose - {p}, dirs := b.dirs + {p});
    forall r | r != Held ensures r in b'.refs <==> IsRef(frames, b'.dirs, r) {
      assert r in b.refs <==> IsRef(frames, b.dirs, r);
    }
  }

  /** A directory that names no table is no longer live. */
  lemma CloseDir(frames: seq<Frame>, b: Books, d: nat)
    requires RefsInv(frames, b) && d in b.dirs && forall x :: TableRef(d, x) !in b.refs
    ensures DirRef(d) in b.refs && b.refs[DirRef(d)] == d
    ensures RefsInv(frames, b.(refs := b.refs - {DirRef(d)}, dirs := b.dirs - {d}))
  {
    assert IsRef(frames, b.dirs, DirRef(d));
    var b' := b.(refs := b.refs - {DirRef(d)}, dirs := b.dirs - {d});
    forall r | r != Held ensures r in b'.refs <==> IsRef(frames, b'.dirs, r) {
      if r.PageRef? && r in b.refs {
        RefParents(frames, b, r);
      }
    }
  }

  // ---------------------------------------------------------------------------------------------
  // The flat map

  datatype Mapping = Mapping(page: nat, perm: nat)

  const UTOP_PAGES: nat := PDX_UTOP * NPTENTRIES

  function SlotOf(d: nat, v: nat): Ref {
    PageRef(d, v / NPTENTRIES, v % NPTENTRIES)
  }

  /** The address space of a directory below UTOP: page number to page and permissions. */
  function AddrSpace(frames: seq<Frame>, d: nat): map<nat, Mapping> {
    map v: nat | v < UTOP_PAGES && IsRef(frames, {d}, SlotOf(d, v)) ::
      Mapping(WordOf(frames, SlotOf(d, v)) / PGSIZE, WordOf(frames, SlotOf(d, v)) % PGSIZE)
  }

  /** A user address has its entry at (PDX, PTX), which determine its page number. */
  lemma UserAddress(va: nat)
    requires va < UTOP
    ensures PDX(va) < PDX_UTOP && PTX(va) < NPTENTRIES && PGNUM(va) == PDX(va) * NPTENTRIES + PTX(va) < UTOP_PAGES
    ensures forall d :: SlotOf(d, PGNUM(va)) == PageRef(d, PDX(va), PTX(va))
  {
    hide PDX, PTX, PGNUM;
    AddressRoundTrip(va);
    Fields(va);
    forall d ensures SlotOf(d, PGNUM(va)) == PageRef(d, PDX(va), PTX(va)) {
      assert PGNUM(va) / NPTENTRIES == PDX(va) && PGNUM(va) % NPTENTRIES == PTX(va);
    }
  }

  lemma SpaceAt(frames: seq<Frame>, dirs: set<nat>, d: nat, v: nat)
    requires d in dirs
    ensures v in AddrSpace(frames, d) <==> v < UTOP_PAGES && IsRef(frames, dirs, SlotOf(d, v))
    ensures v in AddrSpace(frames, d) ==>
      AddrSpace(frames, d)[v] == Mapping(WordOf(frames, SlotOf(d, v)) / PGSIZE, WordOf(frames, SlotOf(d, v)) % PGSIZE)
  {}

  lemma SpaceAtSame(frames: seq<Frame>, frames': seq<Frame>, dirs: set<nat>, d: nat, v: nat)
    requires d in dirs && SameThrough(frames, frames', dirs, SlotOf(d, v))
    ensures v in AddrSpace(frames', d) <==> v in AddrSpace(frames, d)
    ensures v in AddrSpace(frames, d) ==> AddrSpace(frames', d)[v] == AddrSpace(frames, d)[v]
  {
    hide AddrSpace, IsRef, WordOf;
    SpaceAt(frames, dirs, d, v);
    SpaceAt(frames', dirs, d, v);
  }

  /** An address space whose references read the same is the same. */
  lemma SameSpace(frames: seq<Frame>, frames': seq<Frame>, dirs: set<nat>, d: nat)
    requires d in dirs && forall r: Ref :: r.PageRef? && r.dir == d ==> SameThrough(frames, frames', dirs, r)
    ensures AddrSpace(frames', d) == AddrSpace(frames, d)
  {
    hide AddrSpace, SameThrough;
    forall v: nat
      ensures v in AddrSpace(frames', d) <==> v in AddrSpace(frames, d)
      ensures v in AddrSpace(frames, d) ==> AddrSpace(frames', d)[v] == AddrSpace(frames, d)[v]
    {
      SpaceAtSame(frames, frames', dirs, d, v);
    }
  }

  /** One entry written: a map update, or a deletion when the entry is 0. */
  lemma OneEntry(frames: seq<Frame>, frames': seq<Frame>, dirs: set<nat>, d: nat, u: nat)
    requires d in dirs && u < UTOP_PAGES
    requires forall r: Ref :: r.PageRef? && r.dir == d && r != SlotOf(d, u) ==> SameThrough(frames, frames', dirs, r)
    ensures AddrSpace(frames', d) ==
      if IsRef(frames', dirs, SlotOf(d, u)) then
        AddrSpace(frames, d)[u := Mapping(WordOf(frames', SlotOf(d, u)) / PGSIZE, WordOf(frames', SlotOf(d, u)) % PGSIZE)]
      else AddrSpace(frames, d) - {u}
  {
    hide AddrSpace, SameThrough, IsRef, WordOf;
    SpaceAt(frames', dirs, d, u);
    forall v: nat | v != u
      ensures v in AddrSpace(frames', d) <==> v in AddrSpace(frames, d)
      ensures v in AddrSpace(frames, d) ==> AddrSpace(frames', d)[v] == AddrSpace(frames, d)[v]
    {
      assert SlotOf(d, v) != SlotOf(d, u);
      SpaceAtSame(frames, frames', dirs, d, v);
    }
  }

  /** The books list a mapping exactly when the address space has it. */
  lemma SpaceInBooks(frames: seq<Frame>, b: Books, d: nat, v: nat)
    requires RefsInv(frames, b) && d in b.dirs && v < UTOP_PAGES
    ensures v in AddrSpace(frames, d) <==> SlotOf(d, v) in b.refs
    ensures v in AddrSpace(frames, d) ==> AddrSpace(frames, d)[v].page == b.refs[SlotOf(d, v)]
  {
    assert IsRef(frames, b.dirs, SlotOf(d, v)) == IsRef(frames, {d}, SlotOf(d, v));
  }

  // ---------------------------------------------------------------------------------------------
  // What the processor allows

  /** The page that user code reaches at an address. The processor goes through both levels: the bits
      of the directory's word and those of the table's must all allow the access. */
  function UserAccess(frames: seq<Frame>, d: nat, va: nat, write: bool): Option<nat> {
    var dw := Word(frames, d, PDX(va));
    var pw := Word(frames, dw / PGSIZE, PTX(va));
    if BitAt(dw, 0) && BitAt(dw, 2) && BitAt(pw, 0) && BitAt(pw, 2) && (write ==> BitAt(dw, 1) && BitAt(pw, 1))
    then Some(pw / PGSIZE) else None
  }

  lemma BitsOf(frames: seq<Frame>, b: Books, r: Ref)
    requires RefsInv(frames, b) && r in b.refs && (r.TableRef? || r.PageRef?)
    ensures EntryBits(r, WordOf(frames, r))
  {}

  lemma LowOdd(w: nat)
    ensures w % PGSIZE % 2 == w % 2
  {}

  /** The permission word as it goes into an entry. */
  lemma PermBits(perm: nat, j: nat)
    requires 0 < j < 12
    ensures BitAt(Or(perm % PGSIZE, PTE_P), j) == BitAt(perm, j)
  {
    BitwiseAt(perm % PGSIZE, PTE_P, j);
    LowTwelve(perm, j);
    ZeroHasNoBits(j - 1);
  }

  /** What a mapping is for user code: it may do what the permissions say, at every address of the
      page, and nothing changes anywhere else. */
  lemma InsertSeen(frames0: seq<Frame>, b0: Books, frames: seq<Frame>, b: Books, d: nat, va: nat, pp: nat, perm: nat)
    requires RefsInv(frames0, b0) && RefsInv(frames, b) && b.dirs == b0.dirs && d in b.dirs && va < UTOP
    requires AddrSpace(frames, d) == AddrSpace(frames0, d)[PGNUM(va) := Mapping(pp, Or(perm % PGSIZE, PTE_P))]
    requires forall e :: e in b.dirs && e != d ==> AddrSpace(frames, e) == AddrSpace(frames0, e)
    ensures forall a: nat, write: bool :: a < UTOP && PGNUM(a) == PGNUM(va) ==>
      UserAccess(frames, d, a, write) == if BitAt(perm, 2) && (write ==> BitAt(perm, 1)) then Some(pp) else None
    ensures forall e: nat, a: nat, write: bool :: e in b.dirs && a < UTOP && (e != d || PGNUM(a) != PGNUM(va)) ==>
      UserAccess(frames, e, a, write) == UserAccess(frames0, e, a, write)
  {
    hide RefsInv, AddrSpace, UserAccess, PGNUM, Or, BitAt;
    PermBits(perm, 1);
    PermBits(perm, 2);
    forall e: nat, a: nat, write: bool | e in b.dirs && a < UTOP
      ensures e == d && PGNUM(a) == PGNUM(va) ==>
        UserAccess(frames, d, a, write) == if BitAt(perm, 2) && (write ==> BitAt(perm, 1)) then Some(pp) else None
      ensures e != d || PGNUM(a) != PGNUM(va) ==> UserAccess(frames, e, a, write) == UserAccess(frames0, e, a, write)
    {
      ProcessorAgrees(frames0, b0, e, a, write);
      ProcessorAgrees(frames, b, e, a, write);
    }
  }

  lemma SevenBitsSet(w: nat)
    requires w % 8 == 7
    ensures BitAt(w, 0) && BitAt(w, 1) && BitAt(w, 2)
  {
    assert Mask(3) == 8 && BitAt(7, 0) && BitAt(7, 1) && BitAt(7, 2);
    LowBit(w, 0, 3);
    LowBit(w, 1, 3);
    LowBit(w, 2, 3);
  }

  lemma NoBits(j: nat)
    ensures !BitAt(0, j)
  {
    ZeroHasNoBits(j);
  }

  lemma LowTwelve(w: nat, j: nat)
    requires j < 12
    ensures BitAt(w % PGSIZE, j) == BitAt(w, j)
  {
    assert Mask(12) == PGSIZE;
    LowBit(w, j, 12);
  }

  /** The directory level never gets in the way: the processor allows exactly what the permissions in
      the flat map allow. */
  lemma ProcessorAgrees(frames: seq<Frame>, b: Books, d: nat, va: nat, write: bool)
    requires RefsInv(frames, b) && d in b.dirs && va < UTOP
    ensures var space := AddrSpace(frames, d);
      UserAccess(frames, d, va, write) ==
        if PGNUM(va) in space && BitAt(space[PGNUM(va)].perm, 2) && (write ==> BitAt(space[PGNUM(va)].perm, 1))
        then Some(space[PGNUM(va)].page) else None
  {
    LookupFacts(frames, b, d, va);
    EntryFacts(frames, b, d, PDX(va));
    var r, x := PageRef(d, PDX(va), PTX(va)), TableRef(d, PDX(va));
    var dw := Word(frames, d, PDX(va));
    NoBits(0);
    if x in b.refs {
      assert EntryBits(x, WordOf(frames, x));
      SevenBitsSet(dw);
      if r in b.refs {
        assert EntryBits(r, WordOf(frames, r));
        LowTwelve(WordOf(frames, r), 1);
        LowTwelve(WordOf(frames, r), 2);
      }
    }
    hide RefsInv, AddrSpace, PDX, PTX, PGNUM;
  }

  // ---------------------------------------------------------------------------------------------
  // Facts for the methods

  const ZERO_FRAME: Frame := seq(NPTENTRIES, _ => 0)

  /** The books after `page_alloc`... */
  function Taken(b: Books): Books
    requires b.free != []
  {
    b.(free := b.free[1..], loose := b.loose + {b.free[0]})
  }

  /** ...and once the page has become the table `x`. */
  function Tabled(b: Books, x: Ref): Books
    requires b.free != []
  {
    b.(free := b.free[1..], refs := b.refs[x := b.free[0]])
  }

  /** The reference part of the invariant ignores the free list and the loose pages. */
  lemma RefsBooks(frames: seq<Frame>, b: Books, b': Books)
    requires RefsInv(frames, b) && b'.refs == b.refs && b'.dirs == b.dirs && b'.reserved == b.reserved && b'.kern == b.kern
    ensures RefsInv(frames, b')
  {}

  /** A directory entry is 0 or names the table the books list. */
  lemma EntryFacts(frames: seq<Frame>, b: Books, d: nat, x: nat)
    requires RefsInv(frames, b) && d in b.dirs && x < PDX_UTOP
    ensures d < |frames|
    ensures frames[d][x] != 0 <==> TableRef(d, x) in b.refs
    ensures frames[d][x] != 0 ==> EntryBits(TableRef(d, x), frames[d][x]) && b.refs[TableRef(d, x)] == frames[d][x] / PGSIZE < |frames|
  {
    assert IsRef(frames, b.dirs, DirRef(d));
    assert IsRef(frames, b.dirs, TableRef(d, x)) <==> frames[d][x] != 0;
  }

  /** The page an entry names. */
  lemma EntryPage(w: nat)
    ensures PGNUM(PTE_ADDR(w)) == w / PGSIZE
  {
    hide PGNUM, PTE_ADDR;
    Fields(w);
    Fields(PTE_ADDR(w));
    assert (w - w % PGSIZE) / PGSIZE == w / PGSIZE;
  }

  lemma WordOfPage(frames: seq<Frame>, d: nat, x: nat, y: nat)
    requires d < |frames| && x < NPTENTRIES && y < NPTENTRIES && frames[d][x] / PGSIZE < |frames|
    ensures WordOf(frames, PageRef(d, x, y)) == frames[frames[d][x] / PGSIZE][y]
  {}

  lemma SameThroughRefl(frames: seq<Frame>, dirs: set<nat>)
    ensures forall r :: SameThrough(frames, frames, dirs, r)
  {}

  lemma SameThroughTrans(f: seq<Frame>, g: seq<Frame>, h: seq<Frame>, dirs: set<nat>, x: Ref)
    requires forall r :: r != Held ==> SameThrough(f, g, dirs, r)
    requires forall r :: r != Held && r != x ==> SameThrough(g, h, dirs, r)
    ensures forall r :: r != Held && r != x ==> SameThrough(f, h, dirs, r)
  {
    forall r | r != Held && r != x ensures SameThrough(f, h, dirs, r) {
      assert SameThrough(f, g, dirs, r) && SameThrough(g, h, dirs, r);
    }
  }

  /** After `page_alloc` the directory entry is still empty and the new page zero. */
  lemma LinkedFacts(before: seq<Frame>, frames: seq<Frame>, b: Books, d: nat, x: nat, t: nat)
    requires t < |before| && d < |before| && frames == WithFrame(before, t, ZERO_FRAME)
    requires x < PDX_UTOP && before[d][x] == 0
    ensures Word(frames, d, x) == 0
    ensures forall k :: 0 <= k < NPTENTRIES ==> frames[t][k] == 0
  {}

  lemma TakenTabled(b: Books, x: Ref, p: nat)
    requires b.free != [] && p == b.free[0] && p !in b.loose
    ensures Taken(b).(refs := Taken(b).refs[x := p], loose := Taken(b).loose - {p}) == Tabled(b, x)
  {
    assert b.loose + {p} - {p} == b.loose;
  }

  lemma RefTarget(frames: seq<Frame>, b: Books, r: Ref)
    requires RefsInv(frames, b) && r in b.refs
    ensures b.refs[r] < |frames| && b.refs[r] !in b.reserved
  {}

  /** What `page_lookup` finds is what the flat map holds. */
  lemma LookupFacts(frames: seq<Frame>, b: Books, d: nat, va: nat)
    requires RefsInv(frames, b) && d in b.dirs && va < UTOP
    ensures PDX(va) < PDX_UTOP && PTX(va) < NPTENTRIES && PGNUM(va) < UTOP_PAGES
    ensures var r, x := PageRef(d, PDX(va), PTX(va)), TableRef(d, PDX(va));
      && SlotOf(d, PGNUM(va)) == r
      && (r in b.refs <==> PGNUM(va) in AddrSpace(frames, d))
      && (r in b.refs <==> x in b.refs && WordOf(frames, r) != 0)
      && (r in b.refs ==> AddrSpace(frames, d)[PGNUM(va)] == Mapping(WordOf(frames, r) / PGSIZE, WordOf(frames, r) % PGSIZE))
      && (r in b.refs ==> b.refs[r] == WordOf(frames, r) / PGSIZE)
  {
    hide PDX, PTX, PGNUM;
    UserAddress(va);
    SpaceInBooks(frames, b, d, PGNUM(va));
    assert IsRef(frames, b.dirs, TableRef(d, PDX(va))) <==> TableRef(d, PDX(va)) in b.refs;
    assert IsRef(frames, b.dirs, PageRef(d, PDX(va), PTX(va))) <==> PageRef(d, PDX(va), PTX(va)) in b.refs;
  }

  /** Clearing one entry deletes one page from one address space. */
  lemma ClearSpaces(frames: seq<Frame>, b: Books, d: nat, va: nat)
    requires RefsInv(frames, b) && d in b.dirs && va < UTOP && PageRef(d, PDX(va), PTX(va)) in b.refs
    ensures TableRef(d, PDX(va)) in b.refs && b.refs[TableRef(d, PDX(va))] < |frames| && PTX(va) < NPTENTRIES
    ensures var frames' := SetWord(frames, b.refs[TableRef(d, PDX(va))], PTX(va), 0);
      && AddrSpace(frames', d) == AddrSpace(frames, d) - {PGNUM(va)}
      && forall e :: e in b.dirs && e != d ==> AddrSpace(frames', e) == AddrSpace(frames, e)
  {
    hide PDX, PTX, PGNUM, AddrSpace;
    UserAddress(va);
    WriteSpaces(frames, b, d, va, 0);
  }

  /** Writing the entry of `va`: the flat map of `d` changes there, no other does. */
  lemma WriteSpaces(frames: seq<Frame>, b: Books, d: nat, va: nat, w: nat)
    requires RefsInv(frames, b) && d in b.dirs && va < UTOP && TableRef(d, PDX(va)) in b.refs
    ensures b.refs[TableRef(d, PDX(va))] < |frames| && PTX(va) < NPTENTRIES
    ensures var frames' := SetWord(frames, b.refs[TableRef(d, PDX(va))], PTX(va), w);
      && AddrSpace(frames', d) == (if w != 0 then AddrSpace(frames, d)[PGNUM(va) := Mapping(w / PGSIZE, w % PGSIZE)] else AddrSpace(frames, d) - {PGNUM(va)})
      && forall e :: e in b.dirs && e != d ==> AddrSpace(frames', e) == AddrSpace(frames, e)
  {
    hide PDX, PTX, PGNUM, AddrSpace;
    UserAddress(va);
    var x, y := PDX(va), PTX(va);
    RefParents(frames, b, TableRef(d, x));
    TableWord(frames, b, d, x, y, w);
    var t := b.refs[TableRef(d, x)];
    var frames' := SetWord(frames, t, y, w);
    assert SameThrough(frames, frames', b.dirs, TableRef(d, x));
    assert Word(frames', d, x) == Word(frames, d, x) && WordOf(frames', PageRef(d, x, y)) == w;
    OneEntry(frames, frames', b.dirs, d, PGNUM(va));
    forall e | e in b.dirs && e != d ensures AddrSpace(frames', e) == AddrSpace(frames, e) {
      SameSpace(frames, frames', b.dirs, e);
    }
  }

  /** The references after `page_insert`: a table for the directory entry if it had none, and the page. */
  function Inserted(b: Books, d: nat, x: nat, slot: Ref, pp: nat): map<Ref, nat> {
    (if TableRef(d, x) in b.refs || b.free == [] then b.refs else b.refs[TableRef(d, x) := b.free[0]])[slot := pp]
  }

  lemma HeldTrick(refs: map<Ref, nat>, slot: Ref, pp: nat)
    requires Held !in refs && slot != Held
    ensures (refs[Held := pp] - {Held})[slot := pp] == refs[slot := pp]
    ensures (refs[Held := pp] - {slot} - {Held})[slot := pp] == refs[slot := pp]
  {}

  lemma CountOf(pages: seq<PageInfo>, head: int, b: Books, p: nat)
    requires PagesInv(pages, head, b) && p < |pages| && p !in b.reserved
    ensures pages[p].ref == |Holders(b.refs, p)|
  {}

  /** A new table takes a free page, so no other page's count changes. */
  lemma SameHolders(b: Books, b': Books, x: Ref, p: nat)
    requires b'.refs == b.refs || (b.free != [] && x !in b.refs && b'.refs == b.refs[x := b.free[0]] && p != b.free[0])
    ensures |Holders(b'.refs, p)| == |Holders(b.refs, p)|
  {
    if b'.refs != b.refs {
      HoldersAdd(b.refs, x, b.free[0], p);
    }
  }

  lemma WalkSpaces(frames: seq<Frame>, frames': seq<Frame>, dirs: set<nat>, x: Ref)
    requires x.TableRef? && forall r :: r != Held && r != x ==> SameThrough(frames, frames', dirs, r)
    ensures forall e :: e in dirs ==> AddrSpace(frames', e) == AddrSpace(frames, e)
  {
    forall e | e in dirs ensures AddrSpace(frames', e) == AddrSpace(frames, e) {
      SameSpace(frames, frames', dirs, e);
    }
  }

  /** The last step of `page_insert`: the held reference becomes the entry's. */
  lemma Settled(pages: seq<PageInfo>, head: int, frames: seq<Frame>, b: Books, d: nat, va: nat, pp: nat, perm: nat)
    requires RefsInv(frames, b) && PagesInv(pages, head, b) && d in b.dirs && va < UTOP && perm < PGSIZE
    requires TableRef(d, PDX(va)) in b.refs && SlotOf(d, PGNUM(va)) !in b.refs && Held in b.refs && b.refs[Held] == pp
    ensures b.refs[TableRef(d, PDX(va))] < |frames| && PTX(va) < NPTENTRIES
    ensures var frames' := SetWord(frames, b.refs[TableRef(d, PDX(va))], PTX(va), MakePte(pp, perm));
      var b' := b.(refs := (b.refs - {Held})[SlotOf(d, PGNUM(va)) := pp]);
      && RefsInv(frames', b') && PagesInv(pages, head, b')
      && AddrSpace(frames', d) == AddrSpace(frames, d)[PGNUM(va) := Mapping(pp, Or(perm, PTE_P))]
      && forall e :: e in b.dirs && e != d ==> AddrSpace(frames', e) == AddrSpace(frames, e)
  {
    hide RefsInv, PagesInv, PDX, PTX, PGNUM, AddrSpace, MakePte, Or, SetWord, SlotOf;
    UserAddress(va);
    PteRoundTrip(pp, perm);
    SettlePage(frames, b, d, PDX(va), PTX(va), MakePte(pp, perm));
    WriteSpaces(frames, b, d, va, MakePte(pp, perm));
    RenameOk(pages, head, b, Held, SlotOf(d, PGNUM(va)));
  }

  // ---------------------------------------------------------------------------------------------
  // Opening and tearing down address spaces

  lemma EmptyChain(pages: seq<PageInfo>)
    requires forall p :: 0 <= p < |pages| ==> pages[p].link == NULL
    ensures ChainInv(pages, NULL, [])
  {}

  lemma FirstBooks(pages: seq<PageInfo>, frames: seq<Frame>, head: int, b: Books)
    requires |pages| == |frames| && b.refs == map[] && b.dirs == {} && b.loose == {} && ChainInv(pages, head, b.free)
    requires forall p :: 0 <= p < |pages| ==> pages[p].ref == 0 && (p in b.free <==> p !in b.reserved)
    requires forall p :: p in b.free ==> p !in b.reserved
    ensures Inv(Mem(pages, frames, head), b)
  {
    forall p: nat ensures Holders(b.refs, p) == {} {}
  }

  lemma PagesBooks(pages: seq<PageInfo>, head: int, b: Books, b': Books)
    requires PagesInv(pages, head, b)
    requires b'.refs == b.refs && b'.free == b.free && b'.loose == b.loose && b'.reserved == b.reserved
    ensures PagesInv(pages, head, b')
  {}

  /** The books after `env_setup_vm`. */
  function Opened(b: Books, d: nat): Books
    requires b.free != []
  {
    b.(free := b.free[1..], refs := b.refs[DirRef(d) := d], dirs := b.dirs + {d})
  }

  lemma TakenOpened(b: Books, p: nat)
    requires b.free != [] && p == b.free[0] && p !in b.loose
    ensures Taken(b).(refs := Taken(b).refs[DirRef(p) := p], loose := Taken(b).loose - {p}, dirs := Taken(b).dirs + {p}) == Opened(b, p)
  {
    assert b.loose + {p} - {p} == b.loose;
  }

  /** A new directory maps nothing, and the directories that were live map what they did. */
  lemma NewSpaces(before: seq<Frame>, frames: seq<Frame>, b: Books, p: nat)
    requires RefsInv(frames, b) && p < |frames| && p !in b.dirs && (forall r :: r in b.refs ==> b.refs[r] != p)
    requires forall k :: 0 <= k < PDX_UTOP ==> b.kern[k] == 0
    requires forall r :: r != Held ==> SameThrough(before, frames, b.dirs, r)
    ensures var frames' := WithFrame(frames, p, NewDirFrame(b.kern, p));
      && AddrSpace(frames', p) == map[]
      && forall e :: e in b.dirs ==> AddrSpace(frames', e) == AddrSpace(before, e)
  {
    hide AddrSpace, SameThrough, RefsInv;
    var frames' := WithFrame(frames, p, NewDirFrame(b.kern, p));
    UnheldFrame(frames, b, p, NewDirFrame(b.kern, p));
    forall e | e in b.dirs ensures AddrSpace(frames', e) == AddrSpace(before, e) {
      SameSpace(before, frames, b.dirs, e);
      SameSpace(frames, frames', b.dirs, e);
    }
    EmptySpace(frames', p);
  }

  lemma EmptySpace(frames: seq<Frame>, d: nat)
    requires forall k :: 0 <= k < PDX_UTOP ==> Word(frames, d, k) == 0
    ensures AddrSpace(frames, d) == map[]
  {
    assert forall v: nat :: v < UTOP_PAGES ==> v / NPTENTRIES < PDX_UTOP;
  }

  /** The references without those of directory `d`. */
  function Without(refs: map<Ref, nat>, d: nat): map<Ref, nat> {
    map r | r in refs && (r.Held? || r.dir != d) :: refs[r]
  }

  function OwnedHolders(refs: map<Ref, nat>, d: nat, p: nat): set<Ref> {
    set r | r in refs && refs[r] == p && !r.Held? && r.dir == d
  }

  lemma OwnedCount(refs: map<Ref, nat>, d: nat, p: nat)
    ensures |Holders(refs, p)| == |Holders(Without(refs, d), p)| + |OwnedHolders(refs, d, p)|
  {
    assert Holders(refs, p) == Holders(Without(refs, d), p) + OwnedHolders(refs, d, p);
  }

  /** What is left when entries below `(x, y)` of directory `d` have been torn down. */
  predicate Listed(r: Ref, d: nat, x: nat, y: nat) {
    match r
    case TableRef(e, z) => e != d || z >= x
    case PageRef(e, z, k) => e != d || z > x || (z == x && k >= y)
    case _ => true
  }

  function Unlisted(refs: map<Ref, nat>, d: nat, x: nat, y: nat): map<Ref, nat> {
    map r | r in refs && Listed(r, d, x, y) :: refs[r]
  }

  lemma NothingUnlisted(refs: map<Ref, nat>, d: nat)
    ensures Unlisted(refs, d, 0, 0) == refs
  {}

  lemma PresentBit(w: nat)
    ensures And(w, PTE_P) == w % 2
  {
    assert Mask(1) == 2;
    LowBits(w, 1);
  }

  lemma UserPage(x: nat, y: nat)
    requires x < PDX_UTOP && y < NPTENTRIES
    ensures PGADDR(x, y, 0) < UTOP && PDX(PGADDR(x, y, 0)) == x && PTX(PGADDR(x, y, 0)) == y
  {
    FieldsRoundTrip(x, y, 0);
    Assembled(x, y, 0);
  }

  /** An entry of a table is present exactly when the books list it. */
  lemma TableFacts(frames: seq<Frame>, b: Books, d: nat, x: nat, y: nat)
    requires RefsInv(frames, b) && TableRef(d, x) in b.refs && y < NPTENTRIES
    ensures b.refs[TableRef(d, x)] < |frames|
    ensures frames[b.refs[TableRef(d, x)]][y] % 2 == 1 <==> PageRef(d, x, y) in b.refs
  {
    var r := PageRef(d, x, y);
    RefParents(frames, b, TableRef(d, x));
    assert IsRef(frames, b.dirs, r) <==> r in b.refs;
    assert WordOf(frames, r) == frames[b.refs[TableRef(d, x)]][y];
  }

  /** An absent directory entry leaves nothing to tear down. */
  lemma NextDirectoryEntry(frames: seq<Frame>, b: Books, refs: map<Ref, nat>, d: nat, x: nat)
    requires RefsInv(frames, b) && d in b.dirs && b.refs == Unlisted(refs, d, x, 0)
    ensures TableRef(d, x) !in b.refs ==> Unlisted(refs, d, x + 1, 0) == b.refs
  {
    if TableRef(d, x) !in b.refs {
      forall r | r in b.refs ensures Listed(r, d, x + 1, 0) {
        if r != Held { RefParents(frames, b, r); }
      }
    }
  }

  lemma NextTableEntry(refs: map<Ref, nat>, d: nat, x: nat, y: nat)
    ensures Unlisted(refs, d, x, y + 1) == Unlisted(refs, d, x, y) - {PageRef(d, x, y)}
    ensures PageRef(d, x, y) !in Unlisted(refs, d, x, y) ==> Unlisted(refs, d, x, y + 1) == Unlisted(refs, d, x, y)
  {}

  lemma LastTableEntry(frames: seq<Frame>, b: Books, refs: map<Ref, nat>, d: nat, x: nat)
    requires RefsInv(frames, b) && b.refs == Unlisted(refs, d, x, NPTENTRIES)
    ensures forall y :: PageRef(d, x, y) !in b.refs
    ensures Unlisted(refs, d, x + 1, 0) == b.refs - {TableRef(d, x)}
  {
    forall y ensures PageRef(d, x, y) !in b.refs {
      assert PageRef(d, x, y) in b.refs ==> IsRef(frames, b.dirs, PageRef(d, x, y));
    }
    forall r | r in b.refs && r != TableRef(d, x) ensures Listed(r, d, x + 1, 0) {}
  }

  lemma LastDirectoryEntry(frames: seq<Frame>, b: Books, refs: map<Ref, nat>, d: nat)
    requires RefsInv(frames, b) && d in b.dirs && b.refs == Unlisted(refs, d, PDX_UTOP, 0)
    ensures forall x :: TableRef(d, x) !in b.refs
    ensures b.refs - {DirRef(d)} == Without(refs, d)
  {
    forall r | r in b.refs && r != Held && r.dir == d ensures r == DirRef(d) {
      assert IsRef(frames, b.dirs, r);
    }
  }

  /** Clearing a directory entry changes no other address space. */
  lemma UnlinkSpaces(frames: seq<Frame>, b: Books, d: nat, x: nat)
    requires RefsInv(frames, b) && d in b.dirs && x < PDX_UTOP
    ensures d < |frames|
    ensures forall e :: e in b.dirs && e != d ==> AddrSpace(SetWord(frames, d, x, 0), e) == AddrSpace(frames, e)
  {
    hide AddrSpace, SameThrough;
    DirWord(frames, b, d, x, 0);
    forall e | e in b.dirs && e != d ensures AddrSpace(SetWord(frames, d, x, 0), e) == AddrSpace(frames, e) {
      SameSpace(frames, SetWord(frames, d, x, 0), b.dirs, e);
    }
  }
}
