/** The physical page allocator and the page tables, updated in place as in kern/pmap.c, and the
    address-space parts of environment creation and teardown. */
module Pmap {
  import opened Wrappers
  import opened Bitmaps
  import opened Mmu
  import opened PmapModel

  const E_NO_MEM := 4
  const REF_LIMIT := 0x1_0000
  const MPENTRY_PAGE := 7
  const IOPHYSMEM_PAGE := 0xA0
  const EXTPHYSMEM_PAGE := 0x100

  class PageTables {
    const pages: array<PageInfo>
    const frames: array<Frame>
    const kern: Frame
    var freeList: int
    ghost var books: Books

    ghost function State(): Mem
      reads this, pages, frames
    {
      Mem(pages[..], frames[..], freeList)
    }

    /** The invariant, with a reference possibly held by a running `page_insert`. */
    ghost predicate Sound()
      reads this, pages, frames
    {
      Inv(State(), books)
    }

    ghost predicate Valid()
      reads this, pages, frames
    {
      Sound() && Held !in books.refs && kern == books.kern && forall k :: 0 <= k < PDX_UTOP ==> kern[k] == 0
    }

    ghost function Space(d: nat): map<nat, Mapping>
      reads frames
    {
      AddrSpace(frames[..], d)
    }

    // -------------------------------------------------------------------------------------------
    // Pages

    /** `page_init`: every page but page 0, the boot code of the other processors, the I/O hole and
        the kernel image goes on the free list, the highest page first. */
    constructor (frames: array<Frame>, kern: Frame, kernelEnd: nat)
      requires forall k :: 0 <= k < PDX_UTOP ==> kern[k] == 0
      ensures Valid() && this.frames == frames && this.kern == kern
      ensures fresh(pages) && pages.Length == frames.Length
      ensures books.refs == map[] && books.loose == {} && books.dirs == {}
      ensures forall p: nat :: p in books.reserved <==> p < pages.Length && p !in books.free
      ensures forall p: nat :: p in books.free <==> p < pages.Length && p != 0 && p != 7 && !(0xA0 <= p < 0x100) && !(0x100 <= p < kernelEnd)
      ensures forall j, k :: 0 <= j < k < |books.free| ==> books.free[j] > books.free[k]
    {
      this.frames := frames;
      this.kern := kern;
      freeList := NULL;
      pages := new PageInfo[frames.Length](_ => PageInfo(0, NULL));
      new;
      hide ChainInv, Inv, BootReserved, InitDone;
      ghost var free: seq<nat> := [];
      InitStart(pages[..], kernelEnd);
      for i := 0 to pages.Length
        invariant InitDone(pages[..], freeList, free, i, kernelEnd)
      {
        InitStep(pages[..], freeList, free, i, kernelEnd);
        if !BootReserved(i, kernelEnd) {
          ghost var before, head := pages[..], freeList;
          pages[i] := PageInfo(0, freeList);
          freeList := i;
          free := [i] + free;
          assert pages[..] == before[i := PageInfo(0, head)];
        }
      }
      InitEnd(pages[..], freeList, free, kernelEnd);
      ghost var reserved := set p: nat | p < pages.Length && BootReserved(p, kernelEnd);
      books := Books(map[], free, {}, {}, reserved, kern);
      FirstBooks(pages[..], frames[..], freeList, books);
    }

    /** Takes the first free page; no reference is counted for it yet. */
    method PageAlloc(zero: bool) returns (p: int)
      requires Sound()
      modifies this, pages, frames
      ensures Sound()
      ensures p == old(freeList)
      ensures p == NULL ==> State() == old(State()) && books == old(books)
      ensures p != NULL ==>
        && 0 <= p < frames.Length && p !in books.reserved && old(books.free) != [] && p == old(books.free)[0]
        && books == Taken(old(books))
        && freeList == old(pages[p].link) && pages[..] == Unlinked(old(pages[..]), p)
        && frames[..] == WithFrame(old(frames[..]), p, if zero then ZERO_FRAME else old(frames[p]))
        && (forall r :: r in books.refs ==> books.refs[r] != p)
        && p !in books.free && p !in old(books.loose) && pages[p].ref == 0
        && (forall r :: r != Held ==> SameThrough(old(frames[..]), frames[..], books.dirs, r))
    {
      hide RefsInv, PagesInv, Holders, SameThrough;
      if freeList == NULL {
        return NULL;
      }
      ghost var m := State();
      PopFree(m.pages, m.head, books);
      p := freeList;
      freeList := pages[p].link;
      pages[p] := pages[p].(link := NULL);
      NoHolders(books.refs, p);
      UnheldFrame(m.frames, books, p, if zero then ZERO_FRAME else m.frames[p]);
      if zero {
        frames[p] := ZERO_FRAME;
      }
      assert frames[..] == WithFrame(m.frames, p, frames[p]);
      books := Taken(books);
      RefsBooks(frames[..], old(books), books);
      assert pages[..] == Unlinked(m.pages, p);
    }

    /** Returns an unreferenced page to the free list. Neither panic of the source can be reached. */
    method PageFree(p: nat)
      requires p < pages.Length && pages[p].ref == 0 && pages[p].link == NULL
      modifies this`freeList, pages
      ensures freeList == p && pages[..] == Pushed(old(pages[..]), old(freeList), p)
    {
      pages[p] := pages[p].(link := freeList);
      freeList := p;
    }

    /** Drops reference `r`, freeing the page with its last one. */
    method PageDecref(p: nat, ghost r: Ref)
      requires PagesInv(pages[..], freeList, books) && r in books.refs && books.refs[r] == p < pages.Length && p !in books.reserved
      modifies this, pages
      ensures PagesInv(pages[..], freeList, books)
      ensures books == Released(old(pages[..]), old(books), r)
    {
      hide PagesInv;
      DecRefOk(pages[..], freeList, books, r);
      ghost var before := pages[..];
      pages[p] := pages[p].(ref := pages[p].ref - 1);
      if pages[p].ref == 0 {
        PageFree(p);
      }
      books := Released(before, books, r);
      assert pages[..] == DecRefPages(before, old(freeList), p);
    }

    // -------------------------------------------------------------------------------------------
    // Tables

    /** Finds the table entry of `va`: its table's page and its index there. With `create` a missing
        table is allocated, zeroed and linked; without memory for it nothing changes. */
    method PgdirWalk(d: nat, va: nat, create: bool) returns (t: int, y: nat)
      requires Sound() && d in books.dirs && va < UTOP
      modifies this, pages, frames
      ensures Sound() && y == PTX(va) < NPTENTRIES
      ensures var x := TableRef(d, PDX(va));
        && (t == NULL <==> x !in old(books.refs) && (!create || old(freeList) == NULL))
        && (t == NULL || x in old(books.refs) ==> State() == old(State()) && books == old(books))
        && (t != NULL ==> x in books.refs && t == books.refs[x] && t < frames.Length)
        && (t != NULL && x !in old(books.refs) ==> old(books.free) != [] && books == Tabled(old(books), x))
      ensures forall r :: r != Held && r != TableRef(d, PDX(va)) ==> SameThrough(old(frames[..]), frames[..], books.dirs, r)
      ensures t != NULL ==> frames[t][y] == WordOf(frames[..], PageRef(d, PDX(va), y))
      ensures forall q: nat :: q < frames.Length && q != d && q != t ==> frames[q] == old(frames[q])
      ensures t != NULL ==> frames[d][PDX(va)] / PGSIZE == t && frames[d][PDX(va)] % 8 == PTE_P + PTE_W + PTE_U
    {
      hide RefsInv, PagesInv, PDX, PTX, PGNUM, PTE_ADDR, MakePte, Or, SameThrough, WordOf, PmapModel.Word, IsRef;
      UserAddress(va);
      SameThroughRefl(frames[..], books.dirs);
      var pdx := PDX(va);
      ghost var x := TableRef(d, pdx);
      EntryFacts(frames[..], books, d, pdx);
      if frames[d][pdx] == 0 && create {
        var p := PageAlloc(true);
        if p != NULL {
          ghost var b := books;
          ghost var before := frames[..];
          ghost var refs := pages[..];
          IncRefOk(refs, freeList, b, x, p);
          pages[p] := pages[p].(ref := (pages[p].ref + 1) % REF_LIMIT);
          PteRoundTrip(p, PTE_W + PTE_U);
          TableEntry(p);
          LinkedFacts(old(frames[..]), before, b, d, pdx, p);
          LinkTable(before, b, d, pdx, p, MakePte(p, PTE_W + PTE_U));
          frames[d] := frames[d][pdx := MakePte(p, PTE_W + PTE_U)];
          assert frames[..] == SetWord(before, d, pdx, MakePte(p, PTE_W + PTE_U));
          books := Tabled(old(books), x);
          TakenTabled(old(books), x, p);
          assert pages[..] == IncRef(refs, p);
          SameThroughTrans(old(frames[..]), before, frames[..], books.dirs, x);
        }
      }
      y := PTX(va);
      EntryFacts(frames[..], books, d, pdx);
      if frames[d][pdx] != 0 {
        t := PGNUM(PTE_ADDR(frames[d][pdx]));
        EntryPage(frames[d][pdx]);
        WordOfPage(frames[..], d, pdx, y);
        return;
      }
      t := NULL;
    }

    /** The page mapped at `va` and where its entry is: the flat map looked up. */
    method PageLookup(d: nat, va: nat) returns (p: int, t: int, y: nat)
      requires Sound() && d in books.dirs && va < UTOP
      modifies this, pages, frames
      ensures State() == old(State()) && books == old(books) && y == PTX(va) < NPTENTRIES
      ensures p != NULL <==> PGNUM(va) in Space(d)
      ensures p != NULL ==> PageRef(d, PDX(va), y) in books.refs && p == Space(d)[PGNUM(va)].page == books.refs[PageRef(d, PDX(va), y)]
      ensures p != NULL ==> TableRef(d, PDX(va)) in books.refs && t == books.refs[TableRef(d, PDX(va))] < frames.Length
      ensures p != NULL ==> frames[t][y] % PGSIZE == Space(d)[PGNUM(va)].perm
    {
      hide RefsInv, PagesInv, PDX, PTX, PGNUM, SameThrough, PTE_ADDR;
      t, y := PgdirWalk(d, va, false);
      LookupFacts(frames[..], books, d, va);
      if t == NULL || frames[t][y] == 0 {
        return NULL, t, y;
      }
      EntryPage(frames[t][y]);
      p := PGNUM(PTE_ADDR(frames[t][y]));
    }

    /** Unmaps `va`: a deletion from the flat map, and one reference less to the page. */
    method PageRemove(d: nat, va: nat)
      requires Sound() && d in books.dirs && va < UTOP
      modifies this, pages, frames
      ensures Sound()
      ensures Space(d) == old(Space(d)) - {PGNUM(va)}
      ensures forall e :: e in books.dirs && e != d ==> Space(e) == old(Space(e))
      ensures books == if SlotOf(d, PGNUM(va)) in old(books.refs) then Released(old(pages[..]), old(books), SlotOf(d, PGNUM(va))) else old(books)
      ensures SlotOf(d, PGNUM(va)) !in old(books.refs) ==> State() == old(State())
      ensures forall q: nat :: q < frames.Length && !IsTable(old(books), d, PDX(va), q) ==> frames[q] == old(frames[q])
    {
      hide RefsInv, PagesInv, PDX, PTX, PGNUM, SameThrough, AddrSpace;
      UserAddress(va);
      LookupFacts(frames[..], books, d, va);
      var t, y := PgdirWalk(d, va, false);
      var p, _, _ := PageLookup(d, va);
      if t == NULL || frames[t][y] == 0 {
        assert Space(d) - {PGNUM(va)} == Space(d);
        return;
      }
      ghost var r := PageRef(d, PDX(va), y);
      ghost var before := frames[..];
      ClearPage(before, books, d, PDX(va), y);
      RefTarget(before, books, r);
      PageDecref(p, r);
      frames[t] := frames[t][y := 0];
      assert frames[..] == SetWord(before, t, y, 0);
      RefsBooks(frames[..], old(books).(refs := old(books).refs - {r}), books);
      ClearSpaces(before, old(books), d, va);
    }

    /** A page that may be mapped: managed, in hand or mapped already, and no directory or table. */
    ghost predicate Mappable(pp: nat)
      reads this, pages, frames
    {
      && pp < pages.Length && pp !in books.reserved && pp !in books.free
      && forall r :: r in books.refs && books.refs[r] == pp ==> r.PageRef?
    }

    /** Maps page `pp` at `va`: an update of the flat map, or without memory for a table no change at
        all. The permission word is not cut to twelve bits, and must not change the page. The count goes up before the old mapping goes, so re-inserting a page cannot free it. */
    method PageInsert(d: nat, pp: nat, va: nat, perm: nat) returns (res: int)
      requires Valid() && d in books.dirs && va < UTOP && KeepsPage(pp, perm) && Mappable(pp)
      requires pages[pp].ref + 1 < REF_LIMIT
      modifies this, pages, frames
      ensures Valid() && res in {0, -E_NO_MEM}
      ensures res == -E_NO_MEM <==> old(freeList) == NULL && TableRef(d, PDX(va)) !in old(books.refs)
      ensures res == -E_NO_MEM ==> State() == old(State()) && books == old(books)
      ensures res == 0 ==> Space(d) == old(Space(d))[PGNUM(va) := Mapping(pp, Or(perm % PGSIZE, PTE_P))]
      ensures forall e :: e in books.dirs && e != d ==> Space(e) == old(Space(e))
      ensures res == 0 ==> forall a: nat, write: bool :: a < UTOP && PGNUM(a) == PGNUM(va) ==>
        UserAccess(frames[..], d, a, write) == if BitAt(perm, 2) && (write ==> BitAt(perm, 1)) then Some(pp) else None
      ensures forall e: nat, a: nat, write: bool :: e in books.dirs && a < UTOP && (e != d || PGNUM(a) != PGNUM(va)) ==>
        UserAccess(frames[..], e, a, write) == UserAccess(old(frames[..]), e, a, write)
      ensures forall q: nat :: q < frames.Length && q != d && !IsTable(books, d, PDX(va), q) ==> frames[q] == old(frames[q])
      ensures res == 0 ==> books.refs == Inserted(old(books), d, PDX(va), SlotOf(d, PGNUM(va)), pp)
      ensures books.dirs == old(books.dirs) && books.reserved == old(books.reserved)
      ensures SlotOf(d, PGNUM(va)) in old(books.refs) && old(books.refs)[SlotOf(d, PGNUM(va))] == pp ==> pages[pp].ref == old(pages[pp].ref)
    {
      hide UserAccess, BitAt, RefsInv, PagesInv, PDX, PTX, PGNUM, PTE_ADDR, SameThrough, AddrSpace, MakePte, Or, Holders, SlotOf, WordOf, PmapModel.Word, IsRef;
      UserAddress(va);
      ghost var slot := SlotOf(d, PGNUM(va));
      ghost var b0 := books;
      CountOf(pages[..], freeList, books, pp);
      LookupFacts(frames[..], books, d, va);
      var t, y := PgdirWalk(d, va, true);
      if t == NULL {
        return -E_NO_MEM;
      }
      WalkSpaces(old(frames[..]), frames[..], books.dirs, TableRef(d, PDX(va)));
      ghost var b1 := books;
      assert b1.refs == if TableRef(d, PDX(va)) in b0.refs then b0.refs else b0.refs[TableRef(d, PDX(va)) := b0.free[0]];
      assert pp !in b1.free;
      IncRefOk(pages[..], freeList, b1, Held, pp);
      AddHeld(frames[..], b1, pp);
      ghost var walked := pages[..];
      CountOf(walked, freeList, b1, pp);
      SameHolders(b0, b1, TableRef(d, PDX(va)), pp);
      pages[pp] := pages[pp].(ref := (pages[pp].ref + 1) % REF_LIMIT);
      books := books.(refs := books.refs[Held := pp], loose := books.loose - {pp});
      assert pages[..] == IncRef(walked, pp);
      PageRemove(d, va);
      ghost var b3 := books;
      ghost var before := frames[..];
      PteExactly(pp, perm);
      Settled(pages[..], freeList, before, b3, d, va, pp, perm % PGSIZE);
      frames[t] := frames[t][y := MakePte(pp, perm)];
      assert frames[..] == SetWord(before, t, y, MakePte(pp, perm));
      books := books.(refs := (books.refs - {Held})[slot := pp]);
      InsertSeen(old(frames[..]), b0, frames[..], books, d, va, pp, perm);
      res := 0;
      HeldTrick(b1.refs, slot, pp);
      CountOf(pages[..], freeList, books, pp);
      if slot in b0.refs && b0.refs[slot] == pp {
        assert books.refs == b0.refs;
      }
    }

    // -------------------------------------------------------------------------------------------
    // Address spaces

    /** A new page directory: nothing below UTOP, the kernel's part above it. */
    method EnvSetupVm() returns (d: int)
      requires Valid()
      modifies this, pages, frames
      ensures Valid() && d == old(freeList)
      ensures d == NULL ==> State() == old(State()) && books == old(books)
      ensures d != NULL ==> 0 <= d < frames.Length && d !in old(books.dirs) && old(books.free) != [] && books == Opened(old(books), d)
      ensures d != NULL ==> Space(d) == map[]
      ensures forall q: nat :: q < frames.Length && q != d ==> frames[q] == old(frames[q])
      ensures forall e :: e in old(books.dirs) ==> Space(e) == old(Space(e))
      ensures d != NULL ==> forall k :: PDX_UTOP <= k < NPDENTRIES ==> frames[d][k] == if k == PDX_UVPT then MakePte(d, PTE_U) else kern[k]
    {
      hide RefsInv, PagesInv, SameThrough, AddrSpace, MakePte, Holders;
      var p := PageAlloc(true);
      if p == NULL {
        return NULL;
      }
      ghost var b := books;
      ghost var before := frames[..];
      ghost var counted := pages[..];
      OpenDir(before, b, p);
      NewSpaces(old(frames[..]), before, b, p);
      frames[p] := kern;
      IncRefOk(counted, freeList, b, DirRef(p), p);
      pages[p] := pages[p].(ref := (pages[p].ref + 1) % REF_LIMIT);
      frames[p] := frames[p][PDX_UVPT := MakePte(p, PTE_U)];
      assert frames[..] == WithFrame(before, p, NewDirFrame(kern, p));
      assert pages[..] == IncRef(counted, p);
      books := Opened(old(books), p);
      TakenOpened(old(books), p);
      PagesBooks(pages[..], freeList, b.(refs := b.refs[DirRef(p) := p], loose := b.loose - {p}), books);
      d := p;
    }

    /** Tears an address space down: exactly its references go, and no other space changes. */
    method EnvFree(d: nat)
      requires Valid() && d in books.dirs
      modifies this, pages, frames
      ensures Valid()
      ensures books.refs == Without(old(books.refs), d) && books.dirs == old(books.dirs) - {d}
      ensures books.loose == old(books.loose) && books.reserved == old(books.reserved)
      ensures forall e :: e in books.dirs ==> Space(e) == old(Space(e))
      ensures forall p :: 0 <= p < pages.Length && p !in books.reserved ==>
        old(pages[p].ref) == pages[p].ref + |OwnedHolders(old(books.refs), d, p)|
      ensures forall q: nat :: q < frames.Length && q != d && !OwnTable(old(books.refs), d, q) ==> frames[q] == old(frames[q])
    {
      hide OwnTable, RefsInv, PagesInv, SameThrough, AddrSpace, Holders, PDX, PTX, PGNUM, PTE_ADDR, PGADDR, And, Unlisted;
      ghost var b0 := books;
      NothingUnlisted(b0.refs, d);
      for pdeno := 0 to PDX_UTOP
        invariant Valid() && books.refs == Unlisted(b0.refs, d, pdeno, 0)
        invariant books.dirs == b0.dirs && books.loose == b0.loose && books.reserved == b0.reserved
        invariant forall e :: e in books.dirs && e != d ==> Space(e) == old(Space(e))
        invariant forall q: nat :: q < frames.Length && q != d && !OwnTable(b0.refs, d, q) ==> frames[q] == old(frames[q])
      {
        EntryFacts(frames[..], books, d, pdeno);
        PresentBit(frames[d][pdeno]);
        NextDirectoryEntry(frames[..], books, b0.refs, d, pdeno);
        if And(frames[d][pdeno], PTE_P) == 0 {
          continue;
        }
        ghost var x := TableRef(d, pdeno);
        var t := PGNUM(PTE_ADDR(frames[d][pdeno]));
        EntryPage(frames[d][pdeno]);
        for pteno := 0 to NPTENTRIES
          invariant Valid() && books.refs == Unlisted(b0.refs, d, pdeno, pteno)
          invariant books.dirs == b0.dirs && books.loose == b0.loose && books.reserved == b0.reserved
          invariant forall e :: e in books.dirs && e != d ==> Space(e) == old(Space(e))
          invariant x in books.refs && books.refs[x] == t
          invariant forall q: nat :: q < frames.Length && q != d && !OwnTable(b0.refs, d, q) ==> frames[q] == old(frames[q])
        {
          OwnTableIs(b0.refs, d, pdeno, pteno, pdeno, t);
          TableFacts(frames[..], books, d, pdeno, pteno);
          PresentBit(frames[t][pteno]);
          NextTableEntry(b0.refs, d, pdeno, pteno);
          if And(frames[t][pteno], PTE_P) != 0 {
            UserPage(pdeno, pteno);
            UserAddress(PGADDR(pdeno, pteno, 0));
            PageRemove(d, PGADDR(pdeno, pteno, 0));
          }
        }
        ghost var before := frames[..];
        EntryFacts(before, books, d, pdeno);
        LastTableEntry(before, books, b0.refs, d, pdeno);
        UnlinkTable(before, books, d, pdeno);
        UnlinkSpaces(before, books, d, pdeno);
        RefTarget(before, books, x);
        frames[d] := frames[d][pdeno := 0];
        assert frames[..] == SetWord(before, d, pdeno, 0);
        ghost var b := books;
        PageDecref(t, x);
        RefsBooks(frames[..], b.(refs := b.refs - {x}), books);
      }
      LastDirectoryEntry(frames[..], books, b0.refs, d);
      CloseDir(frames[..], books, d);
      RefTarget(frames[..], books, DirRef(d));
      ghost var b := books;
      PageDecref(d, DirRef(d));
      ghost var b' := books;
      books := books.(dirs := books.dirs - {d});
      PagesBooks(pages[..], freeList, b', books);
      RefsBooks(frames[..], b.(refs := b.refs - {DirRef(d)}, dirs := b.dirs - {d}), books);
      forall p | 0 <= p < pages.Length && p !in books.reserved
        ensures old(pages[p].ref) == pages[p].ref + |OwnedHolders(old(books.refs), d, p)|
      {
        CountOf(old(pages[..]), old(freeList), b0, p);
        CountOf(pages[..], freeList, books, p);
        OwnedCount(b0.refs, d, p);
      }
    }
  }

  /** The pages `page_init` never hands out. */
  predicate BootReserved(p: nat, kernelEnd: nat) {
    p == 0 || p == MPENTRY_PAGE || IOPHYSMEM_PAGE <= p < EXTPHYSMEM_PAGE || EXTPHYSMEM_PAGE <= p < kernelEnd
  }

  /** `page_init` after `i` pages. */
  ghost predicate InitDone(pages: seq<PageInfo>, head: int, free: seq<nat>, i: nat, kernelEnd: nat) {
    && ChainInv(pages, head, free)
    && (forall p: nat :: p in free <==> p < i && !BootReserved(p, kernelEnd))
    && (forall p :: 0 <= p < |pages| ==> pages[p].ref == 0)
    && (forall j, k :: 0 <= j < k < |free| ==> free[j] > free[k])
  }

  lemma InitStart(pages: seq<PageInfo>, kernelEnd: nat)
    requires forall p :: 0 <= p < |pages| ==> pages[p] == PageInfo(0, NULL)
    ensures InitDone(pages, NULL, [], 0, kernelEnd)
  {
    EmptyChain(pages);
  }

  lemma InitStep(pages: seq<PageInfo>, head: int, free: seq<nat>, i: nat, kernelEnd: nat)
    requires InitDone(pages, head, free, i, kernelEnd) && i < |pages|
    ensures if BootReserved(i, kernelEnd) then InitDone(pages, head, free, i + 1, kernelEnd)
            else InitDone(pages[i := PageInfo(0, head)], i, [i] + free, i + 1, kernelEnd)
  {
    hide ChainInv, BootReserved;
    if !BootReserved(i, kernelEnd) {
      PushChain(pages, head, free, i);
      assert forall j :: 0 <= j < |free| ==> free[j] in free;
    }
  }

  lemma InitEnd(pages: seq<PageInfo>, head: int, free: seq<nat>, kernelEnd: nat)
    requires InitDone(pages, head, free, |pages|, kernelEnd)
    ensures ChainInv(pages, head, free)
    ensures forall p: nat :: p in free <==> p < |pages| && !BootReserved(p, kernelEnd)
    ensures forall p :: 0 <= p < |pages| ==> pages[p].ref == 0
    ensures forall j, k :: 0 <= j < k < |free| ==> free[j] > free[k]
  {}
}
