/** The system calls that map pages, on the page tables of all environments: what each does to the
    entries is what a step of copy-on-write fork does to them. */
module PageCalls {
  import opened Wrappers
  import opened Bitmaps
  import opened Mmu
  import opened PmapModel
  import opened Pmap
  import Cow

  const E_INVAL := 3
  const PTE_PWT: nat := 0x008
  const PTE_PCD: nat := 0x010
  const PTE_COW: nat := 0x800
  const PTE_SYSCALL: nat := 0xE07

  // ---------------------------------------------------------------------------------------------
  // Permission bits

  /** An entry with these permission bits, as fork sees it. */
  function PteOf(f: nat, perm: nat): Cow.Pte {
    Cow.Pte(f, BitAt(perm, 2), BitAt(perm, 1), BitAt(perm, 11), BitAt(perm, 3) || BitAt(perm, 4))
  }

  /** The permissions `duppage` computes from the parent's entry. */
  function DupPerm(pte: nat): nat {
    var perm := if And(pte, PTE_PCD + PTE_PWT) != 0 then Or(PTE_U + PTE_P, PTE_PCD + PTE_PWT) else PTE_U + PTE_P;
    if And(pte, PTE_W) != 0 || And(pte, PTE_COW) != 0 then Or(perm, PTE_COW) else perm
  }

  lemma SmallBits()
    ensures BitAt(PTE_P, 0) && !BitAt(PTE_P, 1) && !BitAt(PTE_P, 2) && !BitAt(PTE_P, 3) && !BitAt(PTE_P, 4) && !BitAt(PTE_P, 11)
    ensures !BitAt(PTE_U, 1) && BitAt(PTE_U, 2) && !BitAt(PTE_U, 3) && !BitAt(PTE_U, 4) && !BitAt(PTE_U, 11)
    ensures Or(PTE_U, PTE_P) == PTE_U + PTE_P && Or(PTE_PCD, PTE_PWT) == PTE_PCD + PTE_PWT
    ensures !BitAt(PTE_COW, 1) && !BitAt(PTE_COW, 2) && !BitAt(PTE_COW, 3) && !BitAt(PTE_COW, 4) && BitAt(PTE_COW, 11)
    ensures PTE_P == Mask(0) && PTE_W == Mask(1) && PTE_U == Mask(2) && PTE_PWT == Mask(3) && PTE_PCD == Mask(4) && PTE_COW == Mask(11)
  {
    assert Mask(3) == 8 && Mask(4) == 16 && Mask(7) == 128 && Mask(11) == 0x800;
    forall i: nat, j: nat ensures BitAt(Mask(i), j) == (i == j) { MaskBits(i, j); }
  }

  /** A test of two bits at once. */
  lemma TwoBits(w: nat)
    ensures And(w, PTE_PCD + PTE_PWT) != 0 <==> BitAt(w, 3) || BitAt(w, 4)
  {
    SmallBits();
    var two := PTE_PCD + PTE_PWT;
    forall j: nat ensures BitAt(And(w, two), j) == (BitAt(w, j) && (j == 3 || j == 4)) {
      BitwiseAt(PTE_PCD, PTE_PWT, j);
      MaskBits(3, j);
      MaskBits(4, j);
      BitwiseAt(w, two, j);
    }
    ZeroHasNoBits(3);
    ZeroHasNoBits(4);
    assert BitAt(And(w, two), 3) == BitAt(w, 3) && BitAt(And(w, two), 4) == BitAt(w, 4);
    if And(w, two) != 0 {
      var j := NonzeroHasBit(And(w, two));
    }
  }

  /** The entry a mapping call writes: user and present, and the rest as asked for. */
  lemma GivenBits(f: nat, perm: nat)
    ensures PteOf(f, Or(Or(PTE_P + PTE_U, perm), PTE_P)) == PteOf(f, Or(PTE_P + PTE_U, perm))
    ensures PteOf(f, Or(PTE_P + PTE_U, perm)) == PteOf(f, perm).(user := true)
    ensures PteOf(f, Or(perm, PTE_P + PTE_U)) == PteOf(f, perm).(user := true)
  {
    SmallBits();
    forall j: nat
      ensures BitAt(Or(PTE_P + PTE_U, perm), j) == (BitAt(PTE_U, j) || BitAt(PTE_P, j) || BitAt(perm, j))
      ensures BitAt(Or(perm, PTE_P + PTE_U), j) == (BitAt(PTE_U, j) || BitAt(PTE_P, j) || BitAt(perm, j))
      ensures BitAt(Or(Or(PTE_P + PTE_U, perm), PTE_P), j) == (BitAt(PTE_U, j) || BitAt(PTE_P, j) || BitAt(perm, j))
    {
      BitwiseAt(PTE_P + PTE_U, perm, j);
      BitwiseAt(perm, PTE_P + PTE_U, j);
      BitwiseAt(PTE_U, PTE_P, j);
      BitwiseAt(Or(PTE_P + PTE_U, perm), PTE_P, j);
    }
    hide BitAt, Or;
  }

  /** `duppage` asks for what the model of fork gives: copy-on-write where the parent could write. */
  lemma DupPermIs(f: nat, pte: nat)
    ensures PteOf(f, DupPerm(pte)) == Cow.Duped(PteOf(f, pte)) && DupPerm(pte) < PGSIZE
    ensures BitAt(DupPerm(pte), 0) && !BitAt(DupPerm(pte), 1) && BitAt(DupPerm(pte), 2)
    ensures BitAt(DupPerm(pte), 11) <==> BitAt(pte, 1) || BitAt(pte, 11)
    ensures forall j: nat :: j == 3 || j == 4 ==> (BitAt(DupPerm(pte), j) <==> BitAt(pte, 3) || BitAt(pte, 4))
    ensures forall j: nat :: j > 4 && j != 11 ==> !BitAt(DupPerm(pte), j)
  {
    SmallBits();
    TwoBits(pte);
    MaskTest(pte, 1);
    MaskTest(pte, 11);
    assert Mask(7) == 128 && Mask(12) == PGSIZE;
    var low := if And(pte, PTE_PCD + PTE_PWT) != 0 then Or(PTE_U + PTE_P, PTE_PCD + PTE_PWT) else PTE_U + PTE_P;
    BitwiseBounds(PTE_U + PTE_P, PTE_PCD + PTE_PWT, 12);
    BitwiseBounds(low, PTE_COW, 12);
    forall j: nat
      ensures BitAt(PTE_U + PTE_P, j) == (j == 2 || j == 0)
      ensures BitAt(low, j) == (j == 2 || j == 0 || (And(pte, PTE_PCD + PTE_PWT) != 0 && (j == 3 || j == 4)))
      ensures BitAt(Or(low, PTE_COW), j) == (BitAt(low, j) || j == 11)
    {
      BitwiseAt(PTE_U, PTE_P, j);
      BitwiseAt(PTE_PCD, PTE_PWT, j);
      BitwiseAt(PTE_U + PTE_P, PTE_PCD + PTE_PWT, j);
      BitwiseAt(low, PTE_COW, j);
      MaskBits(0, j);
      MaskBits(2, j);
      MaskBits(3, j);
      MaskBits(4, j);
      MaskBits(11, j);
    }
    hide BitAt, Or, And, Mask;
  }

  /** The check of `env_page_map`: write permission is not given on a page that has none. */
  lemma WriteCheck(perm: nat, pte: nat)
    ensures AndNot(And(perm, PTE_W), And(PTE_W, pte)) != 0 <==> BitAt(perm, 1) && !BitAt(pte, 1)
  {
    var w := AndNot(And(perm, PTE_W), And(PTE_W, pte));
    forall j: nat ensures BitAt(w, j) == (j == 1 && BitAt(perm, 1) && !BitAt(pte, 1)) {
      BitwiseAt(And(perm, PTE_W), And(PTE_W, pte), j);
      BitwiseAt(perm, PTE_W, j);
      BitwiseAt(PTE_W, pte, j);
      MaskBits(1, j);
    }
    ZeroHasNoBits(1);
    if w != 0 {
      var j := NonzeroHasBit(w);
    }
  }

  /** Permission bits lie in the low twelve bits of an entry. */
  lemma LowPerm(f: nat, w: nat)
    ensures PteOf(f, w % PGSIZE) == PteOf(f, w)
  {
    forall j: nat | j < 12 ensures BitAt(w % PGSIZE, j) == BitAt(w, j) {
      LowBit(w, j, 12);
    }
    hide BitAt;
  }

  // ---------------------------------------------------------------------------------------------
  // All address spaces as one map

  /** The entries below UTOP of every environment, `pgdir` giving each its directory. */
  function Entries(frames: seq<Frame>, pgdir: map<nat, nat>): map<Cow.Slot, Cow.Pte> {
    map e: nat, v: nat | e in pgdir && v in AddrSpace(frames, pgdir[e]) ::
      Cow.Slot(e, v) := PteOf(AddrSpace(frames, pgdir[e])[v].page, AddrSpace(frames, pgdir[e])[v].perm)
  }

  lemma EntryAt(frames: seq<Frame>, pgdir: map<nat, nat>, a: Cow.Slot)
    ensures a in Entries(frames, pgdir) <==> a.env in pgdir && a.vpn in AddrSpace(frames, pgdir[a.env])
    ensures a in Entries(frames, pgdir) ==>
      var m := AddrSpace(frames, pgdir[a.env])[a.vpn]; Entries(frames, pgdir)[a] == PteOf(m.page, m.perm)
  {
    hide AddrSpace;
    if a.env in pgdir && a.vpn in AddrSpace(frames, pgdir[a.env]) {
      assert Cow.Slot(a.env, a.vpn) in Entries(frames, pgdir);
    }
  }

  /** Two maps of entries that agree on every slot. */
  lemma SameEntries(frames: seq<Frame>, pgdir: map<nat, nat>, entries: map<Cow.Slot, Cow.Pte>)
    requires forall a: Cow.Slot :: a in entries <==> a.env in pgdir && a.vpn in AddrSpace(frames, pgdir[a.env])
    requires forall a: Cow.Slot :: a in entries ==> entries[a] == PteOf(AddrSpace(frames, pgdir[a.env])[a.vpn].page, AddrSpace(frames, pgdir[a.env])[a.vpn].perm)
    ensures Entries(frames, pgdir) == entries
  {
    hide AddrSpace, PteOf;
    forall a: Cow.Slot ensures a in Entries(frames, pgdir) <==> a in entries
      ensures a in entries ==> Entries(frames, pgdir)[a] == entries[a]
    {
      EntryAt(frames, pgdir, a);
    }
  }

  /** One address space changes at one page. */
  lemma EntryUpdated(frames: seq<Frame>, frames': seq<Frame>, pgdir: map<nat, nat>, e: nat, v: nat, m: Mapping)
    requires e in pgdir && AddrSpace(frames', pgdir[e]) == AddrSpace(frames, pgdir[e])[v := m]
    requires forall x :: x in pgdir && x != e ==> AddrSpace(frames', pgdir[x]) == AddrSpace(frames, pgdir[x])
    ensures Entries(frames', pgdir) == Entries(frames, pgdir)[Cow.Slot(e, v) := PteOf(m.page, m.perm)]
  {
    hide AddrSpace, PteOf, Entries;
    forall a: Cow.Slot ensures a in Entries(frames, pgdir) <==> a.env in pgdir && a.vpn in AddrSpace(frames, pgdir[a.env])
      ensures a in Entries(frames, pgdir) ==> Entries(frames, pgdir)[a] == PteOf(AddrSpace(frames, pgdir[a.env])[a.vpn].page, AddrSpace(frames, pgdir[a.env])[a.vpn].perm)
    {
      EntryAt(frames, pgdir, a);
    }
    SameEntries(frames', pgdir, Entries(frames, pgdir)[Cow.Slot(e, v) := PteOf(m.page, m.perm)]);
  }

  lemma EntryRemoved(frames: seq<Frame>, frames': seq<Frame>, pgdir: map<nat, nat>, e: nat, v: nat)
    requires e in pgdir && AddrSpace(frames', pgdir[e]) == AddrSpace(frames, pgdir[e]) - {v}
    requires forall x :: x in pgdir && x != e ==> AddrSpace(frames', pgdir[x]) == AddrSpace(frames, pgdir[x])
    ensures Entries(frames', pgdir) == Entries(frames, pgdir) - {Cow.Slot(e, v)}
  {
    hide AddrSpace, PteOf, Entries;
    forall a: Cow.Slot ensures a in Entries(frames, pgdir) <==> a.env in pgdir && a.vpn in AddrSpace(frames, pgdir[a.env])
      ensures a in Entries(frames, pgdir) ==> Entries(frames, pgdir)[a] == PteOf(AddrSpace(frames, pgdir[a.env])[a.vpn].page, AddrSpace(frames, pgdir[a.env])[a.vpn].perm)
    {
      EntryAt(frames, pgdir, a);
    }
    SameEntries(frames', pgdir, Entries(frames, pgdir) - {Cow.Slot(e, v)});
  }

  lemma EntriesSame(frames: seq<Frame>, frames': seq<Frame>, pgdir: map<nat, nat>)
    requires forall x :: x in pgdir ==> AddrSpace(frames', pgdir[x]) == AddrSpace(frames, pgdir[x])
    ensures Entries(frames', pgdir) == Entries(frames, pgdir)
  {
    hide AddrSpace, PteOf;
  }

  /** An environment that is gone takes its entries with it. */
  lemma EntriesWithout(frames: seq<Frame>, frames': seq<Frame>, pgdir: map<nat, nat>, e: nat)
    requires e in pgdir && forall x :: x in pgdir && x != e ==> AddrSpace(frames', pgdir[x]) == AddrSpace(frames, pgdir[x])
    ensures Entries(frames', pgdir - {e}) == Cow.WithoutEnv(Entries(frames, pgdir), e)
  {
    hide AddrSpace, PteOf, Entries;
    forall a: Cow.Slot ensures a in Entries(frames, pgdir) <==> a.env in pgdir && a.vpn in AddrSpace(frames, pgdir[a.env])
      ensures a in Entries(frames, pgdir) ==> Entries(frames, pgdir)[a] == PteOf(AddrSpace(frames, pgdir[a.env])[a.vpn].page, AddrSpace(frames, pgdir[a.env])[a.vpn].perm)
    {
      EntryAt(frames, pgdir, a);
    }
    SameEntries(frames', pgdir - {e}, Cow.WithoutEnv(Entries(frames, pgdir), e));
  }

  /** A new environment has no entries. */
  lemma EntriesWith(frames: seq<Frame>, frames': seq<Frame>, pgdir: map<nat, nat>, e: nat, d: nat)
    requires e !in pgdir && AddrSpace(frames', d) == map[] && forall x :: x in pgdir ==> AddrSpace(frames', pgdir[x]) == AddrSpace(frames, pgdir[x])
    ensures Entries(frames', pgdir[e := d]) == Entries(frames, pgdir)
  {
    hide AddrSpace, PteOf, Entries;
    forall a: Cow.Slot ensures a in Entries(frames, pgdir) <==> a.env in pgdir && a.vpn in AddrSpace(frames, pgdir[a.env])
      ensures a in Entries(frames, pgdir) ==> Entries(frames, pgdir)[a] == PteOf(AddrSpace(frames, pgdir[a.env])[a.vpn].page, AddrSpace(frames, pgdir[a.env])[a.vpn].perm)
    {
      EntryAt(frames, pgdir, a);
    }
    SameEntries(frames', pgdir[e := d], Entries(frames, pgdir));
  }

  // ---------------------------------------------------------------------------------------------
  // The calls

  function Bound(ref: nat, grown: bool): nat {
    if ref == 0 then 1 else ref + if grown then 1 else 0
  }

  /** Counts have grown by one at most for page `q`, and to one for pages that had none. */
  ghost predicate GrewAt(pages: seq<PageInfo>, pages': seq<PageInfo>, reserved: set<nat>, q: int) {
    |pages'| == |pages| && forall p: nat :: p < |pages| && p !in reserved ==> pages'[p].ref <= Bound(pages[p].ref, p == q)
  }

  /** The page whose count a mapping raises: the source's, unless it is at the destination already. */
  function Grown(s: map<Cow.Slot, Cow.Pte>, from: Cow.Slot, to: Cow.Slot): int {
    if from !in s || (to in s && s[to].frame == s[from].frame) then NULL else s[from].frame
  }

  lemma AtMostGrown(pages: seq<PageInfo>, pages': seq<PageInfo>, reserved: set<nat>, s: map<Cow.Slot, Cow.Pte>, a: Cow.Slot, q: int)
    requires GrewAt(pages, pages', reserved, q) && a in s && (q == s[a].frame || q == NULL) && s[a].frame < |pages| && s[a].frame !in reserved && pages[s[a].frame].ref > 0
    ensures GrewAt(pages, pages', reserved, s[a].frame) && pages'[s[a].frame].ref <= pages[s[a].frame].ref + 1
  {}

  /** A mapped page is counted. */
  /** The pages mapped by these entries have the contents they had. */
  ghost predicate ContentsKept(frames: seq<Frame>, frames': seq<Frame>, s: map<Cow.Slot, Cow.Pte>) {
    |frames'| == |frames| && forall a :: a in s && s[a].frame < |frames| ==> frames'[s[a].frame] == frames[s[a].frame]
  }

  /** What changes only a directory and its tables changes no mapped page. */
  lemma OnlyOwnTables(m: Mem, b: Books, frames': seq<Frame>, pgdir: map<nat, nat>, d: nat)
    requires Inv(m, b) && (forall e :: e in pgdir ==> pgdir[e] in b.dirs) && d in b.dirs && |frames'| == |m.frames|
    requires forall q: nat :: q < |frames'| && q != d && !OwnTable(b.refs, d, q) ==> frames'[q] == m.frames[q]
    ensures ContentsKept(m.frames, frames', Entries(m.frames, pgdir))
  {
    hide Inv, AddrSpace, PteOf, Entries;
    var s := Entries(m.frames, pgdir);
    forall a | a in s && s[a].frame < |m.frames| ensures frames'[s[a].frame] == m.frames[s[a].frame] {
      EntryAt(m.frames, pgdir, a);
      MappedApart(m, b, pgdir, a, d, 0);
      if OwnTable(b.refs, d, s[a].frame) {
        var x :| TableRef(d, x) in b.refs && b.refs[TableRef(d, x)] == s[a].frame;
        MappedApart(m, b, pgdir, a, d, x);
      }
    }
  }

  /** What changes only free pages changes no mapped page. */
  lemma OnlyFree(m: Mem, b: Books, frames': seq<Frame>, pgdir: map<nat, nat>)
    requires Inv(m, b) && (forall e :: e in pgdir ==> pgdir[e] in b.dirs) && |frames'| == |m.frames|
    requires forall q: nat :: q < |frames'| && q !in b.free ==> frames'[q] == m.frames[q]
    ensures ContentsKept(m.frames, frames', Entries(m.frames, pgdir))
  {
    hide Inv, AddrSpace, PteOf, Entries;
    var s := Entries(m.frames, pgdir);
    forall a | a in s && s[a].frame < |m.frames| ensures frames'[s[a].frame] == m.frames[s[a].frame] {
      EntryAt(m.frames, pgdir, a);
      MappedApart(m, b, pgdir, a, pgdir[a.env], 0);
    }
  }

  /** A page just taken is no directory and no table, nor the next free one. */
  lemma NewPageApart(m: Mem, b: Books, p: nat, d: nat, x: nat)
    requires Inv(m, b) && d in b.dirs && p !in b.free && forall r :: r in b.refs ==> b.refs[r] != p
    ensures p != d && !IsTable(b, d, x, p) && (b.free != [] ==> b.free[0] != p)
  {
    assert IsRef(m.frames, b.dirs, DirRef(d));
  }

  lemma KeptLess(f: seq<Frame>, g: seq<Frame>, s: map<Cow.Slot, Cow.Pte>, a: Cow.Slot)
    requires ContentsKept(f, g, s)
    ensures ContentsKept(f, g, s - {a})
  {}

  lemma KeptAt(f: seq<Frame>, g: seq<Frame>, s: map<Cow.Slot, Cow.Pte>, a: Cow.Slot)
    requires ContentsKept(f, g, s) && a in s && s[a].frame < |f|
    ensures |g| == |f| && g[s[a].frame] == f[s[a].frame]
  {}

  /** Writing a page that these entries do not map. */
  lemma KeptButOne(f: seq<Frame>, g: seq<Frame>, h: seq<Frame>, s: map<Cow.Slot, Cow.Pte>, p: nat)
    requires ContentsKept(f, g, s) && |h| == |g| && (forall q: nat :: q < |g| && q != p ==> h[q] == g[q])
    requires forall a :: a in s ==> s[a].frame != p
    ensures ContentsKept(f, h, s)
  {}

  lemma KeptTwice(f: seq<Frame>, g: seq<Frame>, h: seq<Frame>, s: map<Cow.Slot, Cow.Pte>, s': map<Cow.Slot, Cow.Pte>)
    requires ContentsKept(f, g, s) && ContentsKept(g, h, s')
    requires forall a :: a in s ==> a in s' && s'[a].frame == s[a].frame
    ensures ContentsKept(f, h, s)
  {}

  /** A mapped page is no directory, no table, and not free. */
  lemma MappedApart(m: Mem, b: Books, pgdir: map<nat, nat>, a: Cow.Slot, d: nat, x: nat)
    requires Inv(m, b) && a in Entries(m.frames, pgdir) && a.env in pgdir && pgdir[a.env] in b.dirs && d in b.dirs
    ensures var f := Entries(m.frames, pgdir)[a].frame; f != d && !IsTable(b, d, x, f) && f !in b.free
  {
    hide PagesInv, AddrSpace, PteOf, Entries, Holders;
    Managed(m, b, pgdir, a);
    var r := SlotOf(pgdir[a.env], a.vpn);
    assert IsRef(m.frames, b.dirs, DirRef(d));
    assert b.refs[DirRef(d)] == d;
    FreePagesIdle(m.pages, m.head, b);
    assert Shareable(r) && !Shareable(DirRef(d)) && !Shareable(TableRef(d, x));
  }

  /** What changes only a directory, its table and a page that was free changes no mapped page. */
  lemma OnlyTables(m: Mem, b: Books, frames': seq<Frame>, b': Books, pgdir: map<nat, nat>, d: nat, x: nat)
    requires Inv(m, b) && (forall e :: e in pgdir ==> pgdir[e] in b.dirs) && d in b.dirs && |frames'| == |m.frames|
    requires forall q: nat :: q < |frames'| && q != d && q !in b.free && !IsTable(b', d, x, q) ==> frames'[q] == m.frames[q]
    requires TableRef(d, x) in b'.refs ==> IsTable(b, d, x, b'.refs[TableRef(d, x)]) || b'.refs[TableRef(d, x)] in b.free
    ensures ContentsKept(m.frames, frames', Entries(m.frames, pgdir))
  {
    hide Inv, AddrSpace, PteOf, Entries;
    var s := Entries(m.frames, pgdir);
    forall a | a in s && s[a].frame < |m.frames| ensures frames'[s[a].frame] == m.frames[s[a].frame] {
      EntryAt(m.frames, pgdir, a);
      MappedApart(m, b, pgdir, a, d, x);
    }
  }

  lemma Managed(m: Mem, b: Books, pgdir: map<nat, nat>, a: Cow.Slot)
    requires Inv(m, b) && a in Entries(m.frames, pgdir) && a.env in pgdir && pgdir[a.env] in b.dirs
    ensures var f := Entries(m.frames, pgdir)[a].frame; f < |m.pages| && f !in b.reserved && m.pages[f].ref > 0
    ensures SlotOf(pgdir[a.env], a.vpn) in b.refs && b.refs[SlotOf(pgdir[a.env], a.vpn)] == Entries(m.frames, pgdir)[a].frame
  {
    hide PagesInv, AddrSpace, PteOf, Entries, Holders;
    EntryAt(m.frames, pgdir, a);
    BelowUtop(m.frames, pgdir[a.env], a.vpn);
    SpaceInBooks(m.frames, b, pgdir[a.env], a.vpn);
    FrameOf();
    var r := SlotOf(pgdir[a.env], a.vpn);
    CountOf(m.pages, m.head, b, b.refs[r]);
    IsHolder(b.refs, r);
  }

  lemma IsHolder(refs: map<Ref, nat>, r: Ref)
    requires r in refs
    ensures |Holders(refs, refs[r])| > 0
  {
    assert r in Holders(refs, refs[r]);
  }

  lemma OpenedCounts(m: Mem, b: Books, m': Mem, b': Books, d: nat)
    requires Inv(m, b) && Inv(m', b') && |m'.pages| == |m.pages| && b.free != [] && d == b.free[0] && d !in b.dirs && b' == Opened(b, d)
    ensures GrewAt(m.pages, m'.pages, b.reserved, NULL)
  {
    hide Holders, PagesInv, Bound;
    assert DirRef(d) !in b.refs;
    forall p: nat | p < |m.pages| && p !in b.reserved ensures m'.pages[p].ref <= Bound(m.pages[p].ref, false) {
      CountOf(m.pages, m.head, b, p);
      CountOf(m'.pages, m'.head, b', p);
      HoldersAdd(b.refs, DirRef(d), d, p);
      FreeIsUncounted(m.pages, m.head, b, p);
      OneMoreBound(m.pages[p].ref);
    }
  }

  lemma OneMoreBound(ref: nat)
    ensures ref <= Bound(ref, false) && (ref == 0 ==> Bound(ref, false) == 1)
  {}

  // ---------------------------------------------------------------------------------------------
  // Counts while forking

  /** The parent's entries below `n` that map page `q` and are forked. */
  function UsedSlots(ptes: map<Cow.Slot, Cow.Pte>, e: nat, d: nat, q: nat, n: nat): set<Ref> {
    set v: nat | v < n && Cow.IsForked(ptes, e, v) && ptes[Cow.Slot(e, v)].frame == q :: SlotOf(d, v)
  }

  lemma UsedStep(ptes: map<Cow.Slot, Cow.Pte>, e: nat, d: nat, q: nat, n: nat)
    ensures |UsedSlots(ptes, e, d, q, n + 1)| == |UsedSlots(ptes, e, d, q, n)| + if Cow.IsForked(ptes, e, n) && ptes[Cow.Slot(e, n)].frame == q then 1 else 0
  {
    var here := Cow.IsForked(ptes, e, n) && ptes[Cow.Slot(e, n)].frame == q;
    forall v: nat | SlotOf(d, v) == SlotOf(d, n) ensures v == n {
      assert v == v / NPTENTRIES * NPTENTRIES + v % NPTENTRIES;
    }
    hide Cow.IsForked;
    assert SlotOf(d, n) !in UsedSlots(ptes, e, d, q, n);
    assert UsedSlots(ptes, e, d, q, n + 1) == UsedSlots(ptes, e, d, q, n) + if here then {SlotOf(d, n)} else {};
  }

  lemma {:induction false} SubsetSize(a: set<Ref>, b: set<Ref>)
    requires a <= b
    ensures |a| <= |b|
  {
    if a != {} {
      var x :| x in a;
      SubsetSize(a - {x}, b - {x});
    }
  }

  /** No page is used more often than it is counted. */
  lemma UsedBound(m: Mem, b: Books, pgdir: map<nat, nat>, ptes: map<Cow.Slot, Cow.Pte>, e: nat, n: nat)
    requires Inv(m, b) && e in pgdir && pgdir[e] in b.dirs && ptes == Entries(m.frames, pgdir)
    ensures forall q: nat :: q < |m.pages| && q !in b.reserved ==> |UsedSlots(ptes, e, pgdir[e], q, n)| <= m.pages[q].ref
  {
    hide Entries, RefsInv, PagesInv, SlotOf;
    forall q: nat | q < |m.pages| && q !in b.reserved ensures |UsedSlots(ptes, e, pgdir[e], q, n)| <= m.pages[q].ref {
      forall r | r in UsedSlots(ptes, e, pgdir[e], q, n) ensures r in Holders(b.refs, q) {
        var v: nat :| v < n && Cow.IsForked(ptes, e, v) && ptes[Cow.Slot(e, v)].frame == q && r == SlotOf(pgdir[e], v);
        Managed(m, b, pgdir, Cow.Slot(e, v));
      }
      SubsetSize(UsedSlots(ptes, e, pgdir[e], q, n), Holders(b.refs, q));
      CountOf(m.pages, m.head, b, q);
    }
  }

  /** After `n` pages a count is what it was, and once more for each use. */
  ghost predicate Counted(pages0: seq<PageInfo>, pages: seq<PageInfo>, reserved: set<nat>, ptes: map<Cow.Slot, Cow.Pte>, e: nat, d: nat, n: nat) {
    |pages| == |pages0| && forall q: nat :: q < |pages| && q !in reserved ==>
      pages[q].ref <= if pages0[q].ref == 0 then 1 else pages0[q].ref + |UsedSlots(ptes, e, d, q, n)|
  }

  ghost predicate Doubled(pages: seq<PageInfo>, reserved: set<nat>) {
    forall p: nat :: p < |pages| && p !in reserved ==> 2 * pages[p].ref + 2 < REF_LIMIT
  }

  lemma CountedStart(pages: seq<PageInfo>, reserved: set<nat>, ptes: map<Cow.Slot, Cow.Pte>, e: nat, d: nat)
    ensures Counted(pages, pages, reserved, ptes, e, d, 0)
  {}

  lemma CountedSkip(pages0: seq<PageInfo>, pages: seq<PageInfo>, reserved: set<nat>, ptes: map<Cow.Slot, Cow.Pte>, e: nat, d: nat, n: nat)
    requires Counted(pages0, pages, reserved, ptes, e, d, n)
    ensures !Cow.IsForked(ptes, e, n) ==> Counted(pages0, pages, reserved, ptes, e, d, n + 1)
  {
    hide Cow.IsForked, UsedSlots;
    forall q: nat ensures |UsedSlots(ptes, e, d, q, n + 1)| >= |UsedSlots(ptes, e, d, q, n)| {
      UsedStep(ptes, e, d, q, n);
    }
  }

  lemma CountedStep(pages0: seq<PageInfo>, pages: seq<PageInfo>, pages': seq<PageInfo>, reserved: set<nat>, ptes: map<Cow.Slot, Cow.Pte>, e: nat, d: nat, n: nat)
    requires Counted(pages0, pages, reserved, ptes, e, d, n) && Cow.IsForked(ptes, e, n) && GrewAt(pages, pages', reserved, ptes[Cow.Slot(e, n)].frame)
    requires ptes[Cow.Slot(e, n)].frame < |pages0| && pages0[ptes[Cow.Slot(e, n)].frame].ref > 0
    ensures Counted(pages0, pages', reserved, ptes, e, d, n + 1)
  {
    hide UsedSlots;
    forall q: nat | q < |pages'| && q !in reserved
      ensures pages'[q].ref <= if pages0[q].ref == 0 then 1 else pages0[q].ref + |UsedSlots(ptes, e, d, q, n + 1)|
    {
      UsedStep(ptes, e, d, q, n);
    }
  }

  /** The page to be shared next has room in its count. */
  lemma RoomHere(pages0: seq<PageInfo>, pages: seq<PageInfo>, reserved: set<nat>, ptes: map<Cow.Slot, Cow.Pte>, e: nat, d: nat, n: nat)
    requires Counted(pages0, pages, reserved, ptes, e, d, n) && Doubled(pages0, reserved) && Cow.Slot(e, n) in ptes
    requires forall q: nat :: q < |pages0| && q !in reserved ==> |UsedSlots(ptes, e, d, q, n)| <= pages0[q].ref
    ensures var f := ptes[Cow.Slot(e, n)].frame; f < |pages| && f !in reserved ==> pages[f].ref + 2 < REF_LIMIT
  {
    hide UsedSlots;
  }

  lemma StillRoom(pages: seq<PageInfo>, pages': seq<PageInfo>, reserved: set<nat>)
    requires Doubled(pages, reserved) && GrewAt(pages, pages', reserved, NULL)
    ensures Doubled(pages', reserved)
  {}

  lemma NotYet(frames: seq<Frame>, pgdir: map<nat, nat>, c: nat)
    requires c !in pgdir
    ensures forall a :: a in Entries(frames, pgdir) ==> a.env != c
  {
    hide Entries;
    forall a: Cow.Slot | a in Entries(frames, pgdir) ensures a.env != c {
      EntryAt(frames, pgdir, a);
    }
  }

  lemma SharedStart(ptes: map<Cow.Slot, Cow.Pte>, e: nat, c: nat)
    ensures Cow.SharedUpTo(ptes, ptes, e, c, 0)
  {}

  lemma SharedFrames(ptes0: map<Cow.Slot, Cow.Pte>, ptes: map<Cow.Slot, Cow.Pte>, e: nat, c: nat, n: nat)
    requires Cow.SharedUpTo(ptes0, ptes, e, c, n)
    ensures forall a :: a in ptes0 ==> a in ptes && ptes[a].frame == ptes0[a].frame
  {}

  lemma ForkedIs(ptes: map<Cow.Slot, Cow.Pte>, e: nat, v: nat)
    ensures Cow.IsForked(ptes, e, v) ==> Cow.Slot(e, v) in ptes && ptes[Cow.Slot(e, v)].user
  {}

  lemma UserTest(f: nat, pte: nat)
    ensures And(pte, PTE_U) != 0 <==> PteOf(f, pte).user
  {
    SmallBits();
    MaskTest(pte, 2);
  }

  lemma PresentPerm(m: Mem, b: Books, d: nat, v: nat)
    requires Inv(m, b) && d in b.dirs
    ensures v in AddrSpace(m.frames, d) ==> AddrSpace(m.frames, d)[v].perm % 2 == 1
  {
    hide RefsInv, PagesInv, AddrSpace, WordOf;
    BelowUtop(m.frames, d, v);
    if v in AddrSpace(m.frames, d) {
      SpaceInBooks(m.frames, b, d, v);
      SpaceAt(m.frames, b.dirs, d, v);
      BitsOf(m.frames, b, SlotOf(d, v));
      LowOdd(WordOf(m.frames, SlotOf(d, v)));
    }
  }

  lemma GrewTwice(pages: seq<PageInfo>, pages1: seq<PageInfo>, pages2: seq<PageInfo>, reserved: set<nat>, q: int)
    requires GrewAt(pages, pages1, reserved, q) && (GrewAt(pages1, pages2, reserved, NULL))
    ensures GrewAt(pages, pages2, reserved, q)
  {}

  /** The entries let user code read, or write, the page. */
  predicate Reaches(s: map<Cow.Slot, Cow.Pte>, e: nat, v: nat, write: bool) {
    Cow.Slot(e, v) in s && s[Cow.Slot(e, v)].user && (write ==> s[Cow.Slot(e, v)].w)
  }

  predicate BadAddress(va: nat) {
    va >= UTOP || va % PGSIZE != 0
  }

  class Environments {
    const tables: PageTables
    var pgdir: map<nat, nat>

    constructor (tables: PageTables)
      requires tables.Valid()
      ensures this.tables == tables && pgdir == map[] && Valid()
    {
      this.tables := tables;
      pgdir := map[];
    }

    /** Every environment has a directory of its own. */
    ghost predicate Valid()
      reads this, tables, tables.pages, tables.frames
    {
      && tables.Valid()
      && (forall e :: e in pgdir ==> pgdir[e] in tables.books.dirs)
      && (forall e, f :: e in pgdir && f in pgdir && e != f ==> pgdir[e] != pgdir[f])
    }

    /** The 16-bit count of the page mapped there has room for `n` more. */
    ghost predicate Room(a: Cow.Slot, n: nat)
      reads this, tables, tables.pages, tables.frames
    {
      a in Ptes() && Ptes()[a].frame < tables.pages.Length ==> tables.pages[Ptes()[a].frame].ref + n < REF_LIMIT
    }

    ghost function Ptes(): map<Cow.Slot, Cow.Pte>
      reads this, tables, tables.frames
    {
      Entries(tables.frames[..], pgdir)
    }

    /** `sys_page_map` after the environments are found, with `env_page_map`. Nothing checks that the
        permission word has twelve bits; a wider one must not change the page. */
    method PageMap(src: nat, srcva: nat, dst: nat, dstva: nat, perm: nat) returns (r: int)
      requires Valid() && src in pgdir && dst in pgdir && Room(Cow.Slot(src, srcva / PGSIZE), 1)
      requires Cow.Slot(src, srcva / PGSIZE) in Ptes() ==> KeepsPage(Ptes()[Cow.Slot(src, srcva / PGSIZE)].frame, perm)
      modifies tables, tables.pages, tables.frames
      ensures Valid()
      ensures var s, from := old(Ptes()), Cow.Slot(src, srcva / PGSIZE);
        if BadAddress(srcva) || BadAddress(dstva) || from !in s || (BitAt(perm, 1) && !s[from].w) then r == -E_INVAL
        else r == if old(tables.freeList) == NULL && TableRef(pgdir[dst], PDX(dstva)) !in old(tables.books.refs) then -E_NO_MEM else 0
      ensures r == 0 ==> Cow.Slot(src, srcva / PGSIZE) in old(Ptes())
      ensures r == 0 ==> Ptes() == old(Ptes())[Cow.Slot(dst, dstva / PGSIZE) := PteOf(old(Ptes())[Cow.Slot(src, srcva / PGSIZE)].frame, perm).(user := true)]
      ensures r != 0 ==> Ptes() == old(Ptes())
      ensures ContentsKept(old(tables.frames[..]), tables.frames[..], old(Ptes()))
      ensures tables.books.reserved == old(tables.books.reserved)
      ensures GrewAt(old(tables.pages[..]), tables.pages[..], tables.books.reserved,
        if r == 0 then Grown(old(Ptes()), Cow.Slot(src, srcva / PGSIZE), Cow.Slot(dst, dstva / PGSIZE)) else NULL)
    {
      hide Entries, PteOf, AddrSpace, RefsInv, PagesInv, Or, And, AndNot, BitAt, PGNUM, PDX, PTX, SlotOf, Inserted;
      if BadAddress(srcva) || BadAddress(dstva) {
        return -E_INVAL;
      }
      Fields(srcva);
      Fields(dstva);
      ghost var before := tables.frames[..];
      EntryAt(before, pgdir, Cow.Slot(src, srcva / PGSIZE));
      LookupFacts(before, tables.books, pgdir[dst], dstva);
      EntryAt(before, pgdir, Cow.Slot(dst, dstva / PGSIZE));
      FrameOf();
      var page, t, y := tables.PageLookup(pgdir[src], srcva);
      assert tables.frames[..] == tables.State().frames == before && tables.pages[..] == tables.State().pages == old(tables.pages[..]);
      if page == NULL {
        return -E_INVAL;
      }
      LowPerm(page, tables.frames[t][y]);
      WriteCheck(perm, tables.frames[t][y]);
      WritableBit(page, tables.frames[t][y]);
      if AndNot(And(perm, PTE_W), And(PTE_W, tables.frames[t][y])) != 0 {
        return -E_INVAL;
      }
      GivenKeeps(page, perm);
      MappedIsMappable(tables.State(), tables.books, PageRef(pgdir[src], PDX(srcva), y));
      ghost var pages, b, m := tables.pages[..], tables.books, tables.State();
      HeadIsNull(m, b);
      r := tables.PageInsert(pgdir[dst], page, dstva, Or(PTE_P + PTE_U, perm));
      InsertedTable(b, tables.books, pgdir[dst], PDX(dstva), SlotOf(pgdir[dst], PGNUM(dstva)), page);
      OnlyTables(m, b, tables.frames[..], tables.books, pgdir, pgdir[dst], PDX(dstva));
      if r == 0 {
        CountsGrow(pages, old(tables.freeList), b, tables.pages[..], tables.freeList, tables.books, pgdir[dst], PDX(dstva), SlotOf(pgdir[dst], PGNUM(dstva)), page);
        EntryUpdated(before, tables.frames[..], pgdir, dst, dstva / PGSIZE, Mapping(page, Or(Or(PTE_P + PTE_U, perm) % PGSIZE, PTE_P)));
      }
    }

    /** The last free page is wanted for the mapping, and a table is wanted too. */
    ghost predicate OnePageShort(e: nat, va: nat)
      reads this, tables
    {
      e in pgdir && |tables.books.free| == 1 && TableRef(pgdir[e], PDX(va)) !in tables.books.refs
    }

    /** `sys_page_alloc`, with `env_page_alloc`: the page mapped is one that no entry had. Memory is short
        exactly without a free page, or when the only one is wanted for a table too; in the second case
        the page taken is not given back. */
    method PageAllocate(e: nat, va: nat, perm: nat) returns (r: int, ghost p: nat)
      requires Valid() && e in pgdir
      modifies tables, tables.pages, tables.frames
      ensures Valid()
      ensures if BadAddress(va) || AndNot(Or(perm, PTE_P + PTE_U), PTE_SYSCALL) != 0 then r == -E_INVAL
              else r == if old(tables.freeList) == NULL || old(OnePageShort(e, va)) then -E_NO_MEM else 0
      ensures r == 0 ==> Ptes() == old(Ptes())[Cow.Slot(e, va / PGSIZE) := PteOf(p, perm).(user := true)]
      ensures r == 0 ==> p < tables.frames.Length && (forall a :: a in old(Ptes()) ==> old(Ptes())[a].frame != p)
      ensures r != 0 ==> Ptes() == old(Ptes())
      ensures if r == -E_NO_MEM && old(tables.freeList) != NULL
              then old(tables.books.free) == [p] && tables.books == Taken(old(tables.books)) && tables.books.free == []
              else r != 0 ==> tables.books == old(tables.books)
      ensures r == 0 ==> tables.pages[p].ref <= 1 && forall k: nat :: k < NPTENTRIES ==> tables.frames[p][k] == 0
      ensures ContentsKept(old(tables.frames[..]), tables.frames[..], old(Ptes()))
      ensures tables.books.reserved == old(tables.books.reserved)
      ensures GrewAt(old(tables.pages[..]), tables.pages[..], tables.books.reserved, NULL)
    {
      hide Entries, PteOf, AddrSpace, RefsInv, PagesInv, Or, And, AndNot, BitAt, PGNUM, PDX, PTX, SlotOf, Inserted, SameThrough;
      p := 0;
      if BadAddress(va) {
        return -E_INVAL, p;
      }
      var given := Or(perm, PTE_P + PTE_U);
      if AndNot(given, PTE_SYSCALL) != 0 {
        return -E_INVAL, p;
      }
      Fields(va);
      SyscallBits(perm);
      SmallKeeps(given);
      ghost var before := tables.State();
      HeadIsNull(before, old(tables.books));
      var page := tables.PageAlloc(true);
      if page == NULL {
        return -E_NO_MEM, p;
      }
      assert forall q: nat :: q < tables.frames.Length && q != page ==> tables.frames[q] == before.frames[q];
      p := page;
      HeadIsNull(tables.State(), tables.books);
      UnmappedBefore(before, old(tables.books), pgdir, page);
      SpacesKept(before.frames, tables.frames[..], old(tables.books).dirs);
      EntriesSame(before.frames, tables.frames[..], pgdir);
      LookupFacts(tables.frames[..], tables.books, pgdir[e], va);
      ghost var taken, pages, head, b := tables.frames[..], tables.pages[..], tables.freeList, tables.books;
      NewPageApart(tables.State(), b, page, pgdir[e], PDX(va));
      r := tables.PageInsert(pgdir[e], page, va, given);
      InsertedTable(b, tables.books, pgdir[e], PDX(va), SlotOf(pgdir[e], PGNUM(va)), page);
      OnlyTables(before, old(tables.books), tables.frames[..], tables.books, pgdir, pgdir[e], PDX(va));
      if r == 0 {
        CountsGrow(pages, head, b, tables.pages[..], tables.freeList, tables.books, pgdir[e], PDX(va), SlotOf(pgdir[e], PGNUM(va)), page);
        EntryUpdated(taken, tables.frames[..], pgdir, e, va / PGSIZE, Mapping(page, Or(given % PGSIZE, PTE_P)));
        AllocatedBits(page, perm);
      } else {
        EntriesSame(taken, tables.frames[..], pgdir);
      }
    }

    /** `sys_page_unmap`. */
    method PageUnmap(e: nat, va: nat) returns (r: int)
      requires Valid() && e in pgdir
      modifies tables, tables.pages, tables.frames
      ensures Valid() && r == if BadAddress(va) then -E_INVAL else 0
      ensures Ptes() == if BadAddress(va) then old(Ptes()) else old(Ptes()) - {Cow.Slot(e, va / PGSIZE)}
      ensures ContentsKept(old(tables.frames[..]), tables.frames[..], old(Ptes()))
    {
      hide Entries, PteOf, AddrSpace, RefsInv, PagesInv, PGNUM, PDX, PTX, SlotOf;
      if BadAddress(va) {
        return -E_INVAL;
      }
      Fields(va);
      ghost var before := tables.frames[..];
      ghost var m, b := tables.State(), tables.books;
      tables.PageRemove(pgdir[e], va);
      OnlyTables(m, b, tables.frames[..], b, pgdir, pgdir[e], PDX(va));
      EntryRemoved(before, tables.frames[..], pgdir, e, va / PGSIZE);
      r := 0;
    }

    /** The address space of a new environment: nothing, or no memory. */
    method NewSpace(e: nat) returns (r: int)
      requires Valid() && e !in pgdir
      modifies this, tables, tables.pages, tables.frames
      ensures Valid() && Ptes() == old(Ptes()) && ContentsKept(old(tables.frames[..]), tables.frames[..], Ptes())
      ensures r == 0 ==> old(tables.freeList) != NULL && pgdir == old(pgdir)[e := old(tables.freeList)]
      ensures r == 0 ==> old(tables.books.free) != [] && tables.books == Opened(old(tables.books), old(tables.freeList))
      ensures r == 0 ==> GrewAt(old(tables.pages[..]), tables.pages[..], tables.books.reserved, NULL)
      ensures r != 0 ==> r == -E_NO_MEM && old(tables.freeList) == NULL && pgdir == old(pgdir)
    {
      hide Entries, AddrSpace, RefsInv, PagesInv;
      ghost var before := tables.frames[..];
      ghost var m, b := tables.State(), tables.books;
      HeadIsNull(m, b);
      HeadOfList(m, b);
      var d := tables.EnvSetupVm();
      OnlyFree(m, b, tables.frames[..], pgdir);
      EntriesSame(before, tables.frames[..], pgdir);
      if d == NULL {
        return -E_NO_MEM;
      }
      EntriesWith(before, tables.frames[..], pgdir, e, d);
      HeadOfList(old(tables.State()), old(tables.books));
      OpenedCounts(old(tables.State()), old(tables.books), tables.State(), tables.books, d);
      pgdir := pgdir[e := d];
      r := 0;
    }

    /** `env_free`. */
    method DropSpace(e: nat)
      requires Valid() && e in pgdir
      modifies this, tables, tables.pages, tables.frames
      ensures Valid() && Ptes() == Cow.WithoutEnv(old(Ptes()), e) && pgdir == old(pgdir) - {e}
      ensures ContentsKept(old(tables.frames[..]), tables.frames[..], old(Ptes()))
    {
      hide OwnTable, Entries, AddrSpace, RefsInv, PagesInv, PmapModel.Without, OwnedHolders;
      ghost var before, m, b := tables.frames[..], tables.State(), tables.books;
      tables.EnvFree(pgdir[e]);
      OnlyOwnTables(m, b, tables.frames[..], pgdir, pgdir[e]);
      assert forall x :: x in pgdir && x != e ==> pgdir[x] in tables.books.dirs;
      EntriesWithout(before, tables.frames[..], pgdir, e);
      pgdir := pgdir - {e};
    }

    /** `duppage`: the parent's entry is read once, through the window at UVPT, and one or two mapping
        calls are made. Unless one of them finds no memory for a table, the entries are those that the
        steps of fork for this page leave. */
    method Duppage(e: nat, v: nat, c: nat) returns (r: int)
      requires Valid() && e in pgdir && c in pgdir && e != c && v < Cow.PAGE_COUNT && Room(Cow.Slot(e, v), 2)
      requires Cow.Slot(e, v) in Ptes() && Ptes()[Cow.Slot(e, v)].user
      modifies tables, tables.pages, tables.frames
      ensures Valid() && r in {0, -E_NO_MEM}
      ensures r == 0 ==> Ptes() == Cow.Shared(old(Ptes()), e, v, c)
      ensures r == 0 ==> Cow.Slot(e, v) in Ptes() && Cow.Slot(c, v) in Ptes()
      ensures r == 0 ==> Cow.CowShared(old(Ptes())[Cow.Slot(e, v)], Ptes()[Cow.Slot(e, v)], Ptes()[Cow.Slot(c, v)])
      ensures r == 0 ==> Cow.OwnPages(Ptes(), e) == Cow.OwnPages(old(Ptes()), e)
      ensures ContentsKept(old(tables.frames[..]), tables.frames[..], old(Ptes()) - {Cow.Slot(c, v)})
      ensures tables.books.reserved == old(tables.books.reserved)
      ensures GrewAt(old(tables.pages[..]), tables.pages[..], tables.books.reserved, old(Ptes())[Cow.Slot(e, v)].frame)
    {
      hide Entries, PteOf, AddrSpace, RefsInv, PagesInv, And, Or, BitAt, PGNUM, PDX, PTX, SlotOf, DupPerm, Cow.Shared, Cow.Duped, GrewAt, Cow.OwnPages, Cow.CowShared;
      ghost var s, x := Ptes(), Ptes()[Cow.Slot(e, v)];
      var pte := ReadEntry(e, v);
      DupPermIs(x.frame, pte);
      TableTests(x.frame, pte);
      DupEntries(s, e, v, c);
      Cow.SharedOwnPages(s, e, v, c);
      SmallKeeps(DupPerm(pte));
      Managed(tables.State(), tables.books, pgdir, Cow.Slot(e, v));
      ghost var pages, frames0 := tables.pages[..], tables.frames[..];
      r := PageMap(e, v * PGSIZE, c, v * PGSIZE, DupPerm(pte));
      ghost var pages1, frames1, s1 := tables.pages[..], tables.frames[..], Ptes();
      AtMostGrown(pages, pages1, tables.books.reserved, s, Cow.Slot(e, v), if r == 0 then Grown(s, Cow.Slot(e, v), Cow.Slot(c, v)) else NULL);
      if r == 0 && (And(pte, PTE_W) != 0 || And(pte, PTE_COW) != 0) {
        r := PageMap(e, v * PGSIZE, e, v * PGSIZE, DupPerm(pte));
        KeptTwice(frames0, frames1, tables.frames[..], s - {Cow.Slot(c, v)}, s1);
        GrewTwice(pages, pages1, tables.pages[..], tables.books.reserved, x.frame);
      }
    }

    /** `uvpt[v]` of an environment, and 0 where there is no table. */
    method ReadEntry(e: nat, v: nat) returns (pte: nat)
      requires Valid() && e in pgdir && v < Cow.PAGE_COUNT
      modifies tables, tables.pages, tables.frames
      ensures Valid() && tables.State() == old(tables.State()) && tables.books == old(tables.books) && Ptes() == old(Ptes())
      ensures And(pte, PTE_P) != 0 <==> Cow.Slot(e, v) in Ptes()
      ensures Cow.Slot(e, v) in Ptes() ==> Ptes()[Cow.Slot(e, v)] == PteOf(Ptes()[Cow.Slot(e, v)].frame, pte)
    {
      hide Entries, PteOf, AddrSpace, Inv, PGNUM, PDX, PTX, PGOFF, PTE_ADDR, SlotOf, And;
      ghost var before := tables.frames[..];
      PageOf(v);
      EntryAt(before, pgdir, Cow.Slot(e, v));
      PresentPerm(tables.State(), tables.books, pgdir[e], v);
      var page, t, y := tables.PageLookup(pgdir[e], v * PGSIZE);
      assert tables.frames[..] == tables.State().frames == before;
      pte := 0;
      PresentBit(0);
      if page != NULL {
        pte := tables.frames[t][y];
        PresentBit(pte);
        LowPerm(page, pte);
        WritableBit(page, pte);
      }
    }

    /** `memmove` of a page by user code, through the processor's walk of the tables: it faults unless
        the one page can be read and the other written. */
    method CopyPage(e: nat, to: nat, from: nat) returns (ok: bool)
      requires Valid() && e in pgdir && to < Cow.PAGE_COUNT && from < Cow.PAGE_COUNT
      modifies tables.frames
      ensures Valid() && Ptes() == old(Ptes()) && tables.pages[..] == old(tables.pages[..])
      ensures ok <==> Reaches(old(Ptes()), e, to, true) && Reaches(old(Ptes()), e, from, false)
      ensures forall q: nat :: q < tables.frames.Length && (!ok || q != old(Ptes())[Cow.Slot(e, to)].frame) ==> tables.frames[q] == old(tables.frames[q])
      ensures ok ==> Ptes()[Cow.Slot(e, to)].frame < tables.frames.Length && Ptes()[Cow.Slot(e, from)].frame < tables.frames.Length
      ensures ok ==> tables.frames[Ptes()[Cow.Slot(e, to)].frame] == old(tables.frames[Ptes()[Cow.Slot(e, from)].frame])
    {
      hide Entries, AddrSpace, RefsInv, PagesInv, UserAccess, PGNUM, SameThrough;
      ghost var m, b := tables.State(), tables.books;
      PageOf(to);
      PageOf(from);
      UserReaches(m, b, pgdir, e, to * PGSIZE, true);
      UserReaches(m, b, pgdir, e, from * PGSIZE, false);
      var dst := UserAccess(tables.frames[..], pgdir[e], to * PGSIZE, true);
      var src := UserAccess(tables.frames[..], pgdir[e], from * PGSIZE, false);
      if dst.None? || src.None? {
        return false;
      }
      Managed(m, b, pgdir, Cow.Slot(e, to));
      Managed(m, b, pgdir, Cow.Slot(e, from));
      MappedIsMappable(m, b, SlotOf(pgdir[e], to));
      UnheldFrame(m.frames, b, dst.value, m.frames[src.value]);
      SpacesKept(m.frames, WithFrame(m.frames, dst.value, m.frames[src.value]), b.dirs);
      tables.frames[dst.value] := tables.frames[src.value];
      assert tables.frames[..] == WithFrame(m.frames, dst.value, m.frames[src.value]);
      EntriesSame(m.frames, tables.frames[..], pgdir);
      ok := true;
    }

    /** The page fault handler: three system calls, and between the first two the copy. What they leave
        is the entry of a private page with the contents the page had, as the steps of the handler do, and
        nothing else. Where the page cannot be read the copy faults, and the handler is entered again. */
    method Pgfault(e: nat, v: nat) returns (r: int, faults: bool, ghost p: nat)
      requires Valid() && e in pgdir && v < Cow.PAGE_COUNT && v != Cow.PFTEMP_PAGE
      requires Cow.Slot(e, Cow.PFTEMP_PAGE) !in Ptes()
      modifies tables, tables.pages, tables.frames
      ensures Valid() && r in {0, -E_NO_MEM}
      ensures r == 0 ==> (faults <==> !Reaches(old(Ptes()), e, v, false))
      ensures r == 0 ==> Ptes() == old(Ptes())[Cow.Slot(e, if faults then Cow.PFTEMP_PAGE else v) := Cow.Pte(p, true, true, false, false)]
      ensures r == 0 ==> forall a :: a in old(Ptes()) ==> old(Ptes())[a].frame != p
      ensures r == 0 && !faults ==> p < tables.frames.Length && old(Ptes())[Cow.Slot(e, v)].frame < tables.frames.Length
      ensures r == 0 && !faults ==> tables.frames[p] == old(tables.frames[Ptes()[Cow.Slot(e, v)].frame])
      ensures ContentsKept(old(tables.frames[..]), tables.frames[..], old(Ptes()) - {Cow.Slot(e, v)})
    {
      hide ContentsKept, Entries, PteOf, AddrSpace, Inv, And, AndNot, Or, BitAt, IsRef, WordOf, GrewAt, PDX, PTX, KeepsPage;
      var temp, perm := Cow.PFTEMP_PAGE * PGSIZE, PTE_P + PTE_U + PTE_W;
      ghost var s0, f0, a := Ptes(), tables.frames[..], Cow.Slot(e, v);
      r, faults, p := CopyToTemp(e, v);
      KeptLess(f0, tables.frames[..], s0, a);
      if r < 0 || faults {
        return;
      }
      PrivateEntry(p);
      SmallKeeps(perm);
      ghost var s1, f1 := Ptes(), tables.frames[..];
      r := PageMap(e, temp, e, v * PGSIZE, perm);
      ghost var s2, f2 := Ptes(), tables.frames[..];
      KeptTwice(f0, f1, f2, s0 - {a}, s1);
      if r < 0 {
        return;
      }
      KeptAt(f1, f2, s1, Cow.Slot(e, Cow.PFTEMP_PAGE));
      r := PageUnmap(e, temp);
      KeptAt(f2, tables.frames[..], s2, a);
      KeptTwice(f0, f2, tables.frames[..], s0 - {a}, s2);
    }

    /** The first half of the handler: a new page at the temporary address, with the contents of page `v`. */
    method CopyToTemp(e: nat, v: nat) returns (r: int, faults: bool, ghost p: nat)
      requires Valid() && e in pgdir && v < Cow.PAGE_COUNT && v != Cow.PFTEMP_PAGE
      requires Cow.Slot(e, Cow.PFTEMP_PAGE) !in Ptes()
      modifies tables, tables.pages, tables.frames
      ensures Valid() && r in {0, -E_NO_MEM}
      ensures r == 0 ==> (faults <==> !Reaches(old(Ptes()), e, v, false))
      ensures Ptes() == if r == 0 then old(Ptes())[Cow.Slot(e, Cow.PFTEMP_PAGE) := Cow.Pte(p, true, true, false, false)] else old(Ptes())
      ensures r == 0 ==> p < tables.frames.Length && tables.pages[p].ref <= 1 && forall a :: a in old(Ptes()) ==> old(Ptes())[a].frame != p
      ensures r == 0 && !faults ==> old(Ptes())[Cow.Slot(e, v)].frame < tables.frames.Length
      ensures r == 0 && !faults ==> tables.frames[p] == old(tables.frames[Ptes()[Cow.Slot(e, v)].frame])
      ensures ContentsKept(old(tables.frames[..]), tables.frames[..], old(Ptes()))
    {
      hide ContentsKept, Entries, PteOf, AddrSpace, Inv, And, AndNot, Or, BitAt, IsRef, WordOf, GrewAt, PDX, PTX;
      ghost var s0, f0 := Ptes(), tables.frames[..];
      faults := false;
      r, p := PageAllocate(e, Cow.PFTEMP_PAGE * PGSIZE, PTE_P + PTE_U + PTE_W);
      PrivateEntry(p);
      if r < 0 {
        return;
      }
      ghost var f1 := tables.frames[..];
      var copied := CopyPage(e, Cow.PFTEMP_PAGE, v);
      faults := !copied;
      KeptButOne(f0, f1, tables.frames[..], s0, p);
      if copied { KeptAt(f0, f1, s0, Cow.Slot(e, v)); }
    }

    /** Every count could double, which is what fork can do to it. */
    ghost predicate RoomToFork()
      reads tables, tables.pages
    {
      forall p: nat :: p < tables.pages.Length && p !in tables.books.reserved ==> 2 * tables.pages[p].ref + 2 < REF_LIMIT
    }

    /** `fork` on page tables: a new address space, every user page of the parent below the exception
        stack given to `duppage`, and a new exception stack. It panics when a call finds no memory. */
    method Fork(e: nat, c: nat) returns (r: int, ghost p: nat, ghost shared: map<Cow.Slot, Cow.Pte>)
      requires Valid() && RoomToFork() && e in pgdir && c !in pgdir
      modifies this, tables, tables.pages, tables.frames
      ensures Valid() && r in {0, -E_NO_MEM}
      ensures r == 0 ==> Cow.SharedUpTo(old(Ptes()), shared, e, c, Cow.PAGE_COUNT)
      ensures r == 0 ==> Ptes() == shared[Cow.Slot(c, Cow.UXSTACK_PAGE) := Cow.Pte(p, true, true, false, false)]
      ensures r == 0 ==> forall a :: a in shared ==> shared[a].frame != p
      ensures ContentsKept(old(tables.frames[..]), tables.frames[..], old(Ptes()))
      ensures r == 0 ==> p < tables.frames.Length && forall k: nat :: k < NPTENTRIES ==> tables.frames[p][k] == 0
      ensures r == 0 ==> forall v: nat :: Cow.IsForked(old(Ptes()), e, v) ==>
        Cow.Slot(e, v) in Ptes() && Cow.Slot(c, v) in Ptes()
        && Cow.CowShared(old(Ptes())[Cow.Slot(e, v)], Ptes()[Cow.Slot(e, v)], Ptes()[Cow.Slot(c, v)])
      ensures r == 0 ==> Cow.OwnPages(Ptes(), e) == Cow.OwnPages(old(Ptes()), e)
      ensures r == 0 ==>
        Cow.OwnPages(Ptes(), c) == (set v | v in Cow.OwnPages(old(Ptes()), e) && Cow.IsForked(old(Ptes()), e, v)) + {Cow.UXSTACK_PAGE}
    {
      hide ContentsKept, Cow.OwnPages, Cow.CowShared, Inv, Entries, PteOf, AddrSpace, And, AndNot, Or, BitAt, SlotOf, Cow.SharedUpTo, Cow.Shared, Cow.IsForked, GrewAt, Bound, UsedSlots, Doubled, Counted;
      p, shared := 0, map[];
      ghost var ptes0, frames0 := Ptes(), tables.frames[..];
      NotYet(tables.frames[..], pgdir, c);
      r := NewSpace(c);
      if r < 0 {
        return;
      }
      ghost var m0, b0, dirs, d := tables.State(), tables.books, pgdir, pgdir[e];
      assert Inv(m0, b0) && d in b0.dirs && ptes0 == Entries(m0.frames, dirs);
      StillRoom(old(tables.pages[..]), m0.pages, b0.reserved);
      SharedStart(ptes0, e, c);
      CountedStart(m0.pages, b0.reserved, ptes0, e, d);
      for pnum := 0 to Cow.PAGE_COUNT
        invariant Valid() && r == 0 && pgdir == dirs && tables.books.reserved == b0.reserved
        invariant Cow.SharedUpTo(ptes0, Ptes(), e, c, pnum) && ContentsKept(frames0, tables.frames[..], ptes0)
        invariant Counted(m0.pages, tables.pages[..], b0.reserved, ptes0, e, d, pnum)
      {
        Cow.SharedStep(ptes0, Ptes(), e, c, pnum);
        ForkedIs(ptes0, e, pnum);
        CountedSkip(m0.pages, tables.pages[..], b0.reserved, ptes0, e, d, pnum);
        if pnum == Cow.UXSTACK_PAGE {
          continue;
        }
        var pte := ReadEntry(e, pnum);
        if Cow.Slot(e, pnum) in Ptes() { UserTest(Ptes()[Cow.Slot(e, pnum)].frame, pte); }
        if And(pte, PTE_P) == 0 || And(pte, PTE_U) == 0 {
          continue;
        }
        ghost var pages := tables.pages[..];
        UsedBound(m0, b0, dirs, ptes0, e, pnum);
        Managed(m0, b0, dirs, Cow.Slot(e, pnum));
        RoomHere(m0.pages, pages, b0.reserved, ptes0, e, d, pnum);
        ghost var s, f := Ptes(), tables.frames[..];
        SharedFrames(ptes0, s, e, c, pnum);
        r := Duppage(e, pnum, c);
        KeptTwice(frames0, f, tables.frames[..], ptes0, s - {Cow.Slot(c, pnum)});
        if r < 0 {
          return;
        }
        CountedStep(m0.pages, pages, tables.pages[..], b0.reserved, ptes0, e, d, pnum);
      }
      shared := Ptes();
      PrivateEntry(0);
      SharedFrames(ptes0, shared, e, c, Cow.PAGE_COUNT);
      ghost var framesLoop := tables.frames[..];
      r, p := PageAllocate(c, Cow.UXSTACK_PAGE * PGSIZE, PTE_P + PTE_U + PTE_W);
      PrivateEntry(p);
      KeptTwice(frames0, framesLoop, tables.frames[..], ptes0, shared);
      if r == 0 { Cow.AllShared(ptes0, shared, Ptes(), e, c, p); }
    }
  }

  /** The tests of `duppage` on the word, and what it then asks for, on the entry. */
  lemma TableTests(f: nat, pte: nat)
    ensures And(pte, PTE_W) != 0 || And(pte, PTE_COW) != 0 <==> PteOf(f, pte).w || PteOf(f, pte).cow
    ensures Cow.Duped(PteOf(f, pte)).user
  {
    SmallBits();
    MaskTest(pte, 1);
    MaskTest(pte, 11);
    hide And, BitAt, Mask;
  }

  /** The entries after one mapping, and after two. */
  lemma DupEntries(s: map<Cow.Slot, Cow.Pte>, e: nat, v: nat, c: nat)
    requires Cow.Slot(e, v) in s && e != c
    ensures var x := s[Cow.Slot(e, v)];
      && Cow.Duped(x).frame == x.frame && !Cow.Duped(x).w && Cow.Duped(x).user
      && (!x.w && !x.cow && x.user ==> s[Cow.Slot(c, v) := Cow.Duped(x)] == Cow.Shared(s, e, v, c))
      && (x.w || x.cow ==> s[Cow.Slot(c, v) := Cow.Duped(x)][Cow.Slot(e, v) := Cow.Duped(x)] == Cow.Shared(s, e, v, c))
    ensures var x, s' := s[Cow.Slot(e, v)], Cow.Shared(s, e, v, c);
      Cow.Slot(e, v) in s' && Cow.Slot(c, v) in s' && (x.user ==> Cow.CowShared(x, s'[Cow.Slot(e, v)], s'[Cow.Slot(c, v)]))
  {}

  lemma SevenBits(j: nat)
    requires j >= 3
    ensures !BitAt(7, j)
  {
    assert BitAt(7, j) == BitAt(3, j - 1) == BitAt(1, j - 2) == BitAt(0, j - 3);
    ZeroHasNoBits(j - 3);
  }

  lemma NoOtherBits()
    ensures AndNot(7, PTE_SYSCALL) == 0
  {
    assert AndNot(7, PTE_SYSCALL) == 2 * AndNot(3, 0x703) && AndNot(3, 0x703) == 2 * AndNot(1, 0x381) && AndNot(1, 0x381) == 2 * AndNot(0, 0x1C0);
    NothingLess(0x1C0);
  }

  lemma {:induction false} NothingLess(b: nat)
    ensures AndNot(0, b) == 0
  {
    if b > 0 { NothingLess(b / 2); }
  }

  /** What the handler and fork ask for when they allocate a page, or move one: a private page. */
  lemma PrivateEntry(f: nat)
    ensures PteOf(f, PTE_P + PTE_U + PTE_W).(user := true) == Cow.Private(f) && AndNot(Or(PTE_P + PTE_U + PTE_W, PTE_P + PTE_U), PTE_SYSCALL) == 0
  {
    assert BitAt(7, 1) && BitAt(7, 2);
    SevenBits(3);
    SevenBits(4);
    SevenBits(11);
    assert Or(7, 5) == 7;
    assert AndNot(7, PTE_SYSCALL) == 0 by { NoOtherBits(); }
    hide BitAt, AndNot, Or;
  }

  /** The head of the free list is null exactly when the list is empty. */
  lemma HeadIsNull(m: Mem, b: Books)
    requires Inv(m, b)
    ensures m.head == NULL <==> |b.free| == 0
  {}

  /** The check of permissions refuses every word with a bit above the low twelve. */
  lemma SyscallBits(perm: nat)
    ensures AndNot(Or(perm, PTE_P + PTE_U), PTE_SYSCALL) == 0 ==> perm < PGSIZE && Or(perm, PTE_P + PTE_U) < PGSIZE
  {
    var given := Or(perm, PTE_P + PTE_U);
    if AndNot(given, PTE_SYSCALL) == 0 {
      forall j: nat | BitAt(given, j) ensures j < 12 && (BitAt(perm, j) ==> BitAt(given, j)) {
        BitwiseAt(given, PTE_SYSCALL, j);
        ZeroHasNoBits(j);
        AboveSyscall(j);
      }
      forall j: nat | BitAt(perm, j) ensures j < 12 {
        BitwiseAt(perm, PTE_P + PTE_U, j);
      }
      assert Mask(12) == PGSIZE;
      LowBitsOnly(given, 12);
      LowBitsOnly(perm, 12);
    }
  }

  lemma AboveSyscall(j: nat)
    requires BitAt(PTE_SYSCALL, j)
    ensures j < 12
  {
    if j >= 12 {
      LowBitsGone(PTE_SYSCALL, j);
    }
  }

  lemma LowBitsGone(w: nat, j: nat)
    requires w < PGSIZE && j >= 12
    ensures !BitAt(w, j)
  {
    assert Mask(12) == PGSIZE;
    SmallHasNoBit(w, 12, j);
  }

  lemma {:induction false} SmallHasNoBit(w: nat, k: nat, j: nat)
    requires w < Mask(k) && j >= k
    ensures !BitAt(w, j)
    decreases k
  {
    if k == 0 { ZeroHasNoBits(j); } else { SmallHasNoBit(w / 2, k - 1, j - 1); }
  }

  /** A number with no bit from `k` on is below the mask. */
  lemma {:induction false} LowBitsOnly(w: nat, k: nat)
    requires forall j: nat :: BitAt(w, j) ==> j < k
    ensures w < Mask(k)
    decreases k
  {
    if w >= 1 {
      var j := NonzeroHasBit(w);
      forall i: nat | BitAt(w / 2, i) ensures i < k - 1 {
        assert BitAt(w, i + 1);
      }
      LowBitsOnly(w / 2, k - 1);
    }
  }

  /** User code reaches a page, or writes to it, exactly when the entry as fork sees it says so. */
  lemma UserReaches(m: Mem, b: Books, pgdir: map<nat, nat>, e: nat, va: nat, write: bool)
    requires Inv(m, b) && e in pgdir && pgdir[e] in b.dirs && va < UTOP
    ensures var s, a := Entries(m.frames, pgdir), Cow.Slot(e, PGNUM(va));
      UserAccess(m.frames, pgdir[e], va, write)
        == if a in s && s[a].user && (write ==> s[a].w) then Some(s[a].frame) else None
  {
    hide RefsInv, PagesInv, AddrSpace, Entries, UserAccess, BitAt, PGNUM;
    ProcessorAgrees(m.frames, b, pgdir[e], va, write);
    EntryAt(m.frames, pgdir, Cow.Slot(e, PGNUM(va)));
  }

  /** A page that no reference has is in no entry. */
  lemma UnmappedBefore(m: Mem, b: Books, pgdir: map<nat, nat>, p: nat)
    requires Inv(m, b) && (forall e :: e in pgdir ==> pgdir[e] in b.dirs) && (forall r :: r in b.refs ==> b.refs[r] != p)
    ensures forall a :: a in Entries(m.frames, pgdir) ==> Entries(m.frames, pgdir)[a].frame != p
  {
    hide RefsInv, PagesInv, AddrSpace, PteOf, Entries;
    forall a: Cow.Slot | a in Entries(m.frames, pgdir) ensures Entries(m.frames, pgdir)[a].frame != p {
      EntryAt(m.frames, pgdir, a);
      BelowUtop(m.frames, pgdir[a.env], a.vpn);
      SpaceInBooks(m.frames, b, pgdir[a.env], a.vpn);
      WritableBit(AddrSpace(m.frames, pgdir[a.env])[a.vpn].page, AddrSpace(m.frames, pgdir[a.env])[a.vpn].perm);
    }
  }

  lemma BelowUtop(frames: seq<Frame>, d: nat, v: nat)
    ensures v in AddrSpace(frames, d) ==> v < UTOP_PAGES
  {}

  /** A write to a page nobody references changes no address space. */
  lemma SpacesKept(frames: seq<Frame>, frames': seq<Frame>, dirs: set<nat>)
    requires forall r :: r != Held ==> SameThrough(frames, frames', dirs, r)
    ensures forall d :: d in dirs ==> AddrSpace(frames', d) == AddrSpace(frames, d)
  {
    hide SameThrough, AddrSpace;
    forall d | d in dirs ensures AddrSpace(frames', d) == AddrSpace(frames, d) {
      SameSpace(frames, frames', dirs, d);
    }
  }

  /** The present bit alone is no bit that fork looks at. */
  lemma PresentUnseen(f: nat, w: nat)
    ensures PteOf(f, Or(w, PTE_P)) == PteOf(f, w)
  {
    SmallBits();
    forall j: nat ensures BitAt(Or(w, PTE_P), j) == (BitAt(w, j) || BitAt(PTE_P, j)) {
      BitwiseAt(w, PTE_P, j);
    }
    hide BitAt, Or;
  }

  /** What the permission word becomes on its way into the entry. */
  lemma GivenKeeps(f: nat, perm: nat)
    ensures var given := Or(PTE_P + PTE_U, perm);
      && (KeepsPage(f, given) <==> KeepsPage(f, perm))
      && PteOf(f, Or(given % PGSIZE, PTE_P)) == PteOf(f, perm).(user := true)
  {
    hide Or, PteOf;
    var given := Or(PTE_P + PTE_U, perm);
    GivenHigh(perm);
    PresentUnseen(f, given % PGSIZE);
    LowPerm(f, given);
    GivenBits(f, perm);
  }

  lemma GivenHigh(perm: nat)
    ensures Or(PTE_P + PTE_U, perm) / PGSIZE == perm / PGSIZE
  {
    hide Or;
    OrByPage(0, perm / PGSIZE, PTE_P + PTE_U, perm % PGSIZE);
    GivenBound(perm % PGSIZE);
    ZeroOr(perm / PGSIZE);
  }

  lemma {:induction false} ZeroOr(a: nat)
    ensures Or(0, a) == a
  {
    if a > 0 { ZeroOr(a / 2); }
  }

  lemma AllocatedBits(f: nat, perm: nat)
    ensures PteOf(f, Or(Or(perm, PTE_P + PTE_U), PTE_P)) == PteOf(f, perm).(user := true)
  {
    SmallBits();
    forall j: nat ensures BitAt(Or(Or(perm, PTE_P + PTE_U), PTE_P), j) == (BitAt(PTE_U, j) || BitAt(PTE_P, j) || BitAt(perm, j)) {
      BitwiseAt(perm, PTE_P + PTE_U, j);
      BitwiseAt(PTE_U, PTE_P, j);
      BitwiseAt(Or(perm, PTE_P + PTE_U), PTE_P, j);
    }
    hide BitAt, Or;
  }

  /** An insertion raises the count of its page by one, unless the page is there already, and that of a
      page that becomes a table. */
  lemma CountsGrow(pages: seq<PageInfo>, head: int, b: Books, pages': seq<PageInfo>, head': int, b': Books, d: nat, x: nat, slot: Ref, pp: nat)
    requires PagesInv(pages, head, b) && PagesInv(pages', head', b') && |pages'| == |pages| && b'.reserved == b.reserved
    requires b'.refs == Inserted(b, d, x, slot, pp) && pp !in b.free && (slot in b.refs ==> TableRef(d, x) in b.refs)
    ensures GrewAt(pages, pages', b.reserved, if slot in b.refs && b.refs[slot] == pp then NULL else pp)
  {
    hide Holders, PagesInv;
    var q0 := if slot in b.refs && b.refs[slot] == pp then NULL else pp;
    if q0 == NULL { assert b'.refs == b.refs; }
    forall p: nat | p < |pages| && p !in b.reserved ensures pages'[p].ref <= Bound(pages[p].ref, p == q0) {
      CountOf(pages, head, b, p);
      CountOf(pages', head', b', p);
      var refs := if TableRef(d, x) in b.refs || b.free == [] then b.refs else b.refs[TableRef(d, x) := b.free[0]];
      if refs != b.refs { HoldersAdd(b.refs, TableRef(d, x), b.free[0], p); }
      if slot in refs {
        HoldersRemove(refs, slot, p);
        HoldersAdd(refs - {slot}, slot, pp, p);
        assert (refs - {slot})[slot := pp] == refs[slot := pp];
      } else {
        HoldersAdd(refs, slot, pp, p);
      }
      FreeIsUncounted(pages, head, b, p);
    }
  }

  /** After an insertion the table is the one there was, or a page that was free. */
  lemma InsertedTable(b: Books, b': Books, d: nat, x: nat, slot: Ref, pp: nat)
    requires b'.refs == b.refs || b'.refs == Inserted(b, d, x, slot, pp)
    requires slot.PageRef?
    ensures TableRef(d, x) in b'.refs ==> IsTable(b, d, x, b'.refs[TableRef(d, x)]) || b'.refs[TableRef(d, x)] in b.free
  {}

  lemma FreeIsUncounted(pages: seq<PageInfo>, head: int, b: Books, p: nat)
    requires PagesInv(pages, head, b) && p < |pages|
    ensures p in b.free ==> pages[p].ref == 0
  {}

  lemma PageOf(v: nat)
    requires v < Cow.PAGE_COUNT
    ensures PGNUM(v * PGSIZE) == v && v * PGSIZE < UTOP
  {
    hide PGNUM;
    Fields(v * PGSIZE);
  }

  lemma FrameOf()
    ensures forall f: nat, w: nat :: PteOf(f, w).frame == f
  {}

  lemma WritableBit(f: nat, w: nat)
    ensures PteOf(f, w).w == BitAt(w, 1) && PteOf(f, w).frame == f
  {}

  lemma GivenBound(perm: nat)
    requires perm < PGSIZE
    ensures Or(PTE_P + PTE_U, perm) < PGSIZE && Or(perm, PTE_P + PTE_U) < PGSIZE
  {
    assert Mask(7) == 128 && Mask(12) == PGSIZE;
    BitwiseBounds(PTE_P + PTE_U, perm, 12);
    BitwiseBounds(perm, PTE_P + PTE_U, 12);
  }

  /** A page that is mapped somewhere is no directory or table, and not free. */
  lemma MappedIsMappable(m: Mem, b: Books, r: Ref)
    requires Inv(m, b) && Held !in b.refs && r in b.refs && r.PageRef?
    ensures var pp := b.refs[r];
      pp < |m.pages| && pp !in b.reserved && pp !in b.free && forall x :: x in b.refs && b.refs[x] == pp ==> x.PageRef?
  {
    var pp := b.refs[r];
    assert r in Holders(b.refs, pp);
  }

  /** What these entries mean for the memories: with the new stack zeroed and the child let go, they are
      the result of fork. */
  lemma ForkMeans(s: Cow.State, shared: map<Cow.Slot, Cow.Pte>, s': Cow.State, e: nat, c: nat, p: nat)
    requires Cow.SlotsOk(s) && p < |s.mem| && e != c && (forall a :: a in s.ptes ==> a.env != c)
    requires Cow.SharedUpTo(s.ptes, shared, e, c, Cow.PAGE_COUNT) && (forall a :: a in shared ==> shared[a].frame != p)
    requires s'.ptes == shared[Cow.Slot(c, Cow.UXSTACK_PAGE) := Cow.Private(p)] && s'.mem == s.mem[p := Cow.ZeroPage()]
    requires c in s'.procs && s'.procs[c].running
    ensures Cow.ForkResult(s, s', e, c, p)
  {
    var s1 := s.(ptes := shared);
    forall a | a in s.ptes ensures s.ptes[a].frame != p {
      assert shared[a].frame == s.ptes[a].frame;
    }
    Cow.LoopEnd(s, s, s1, e, c, p);
    hide Cow.LoopResult, Cow.ForkResult, Cow.Fresh, Cow.SharedUpTo;
    Cow.StackAdded(s, s1, s', e, c, p);
  }

  /** A machine of three pages: page 0 is reserved, page 2 becomes the directory of an environment, and
      page 1 is lost when the environment asks for memory. */
  method LosesPage(e: nat, va: nat) returns (envs: Environments, r: int)
    requires !BadAddress(va)
    ensures envs.Valid() && r == -E_NO_MEM && envs.Ptes() == map[]
    ensures envs.tables.books.loose == {1} && envs.tables.books.free == []
  {
    hide Inv, Entries, AddrSpace, AndNot, Or, PDX, PGNUM, Holders;
    var frames := new Frame[3](_ => ZERO_FRAME);
    var tables := new PageTables(frames, ZERO_FRAME, 0);
    TwoFree(tables.books.free);
    envs := new Environments(tables);
    NoEntries(tables.frames[..]);
    HeadOfList(tables.State(), tables.books);
    ghost var before := tables.books;
    var made := envs.NewSpace(e);
    assert made == 0;
    assert tables.books == Opened(before, 2);
    HeadOfList(tables.State(), tables.books);
    FewReferences(tables.State(), tables.books, 2);
    PrivateEntry(0);
    ghost var p: nat;
    r, p := envs.PageAllocate(e, va, PTE_P + PTE_U + PTE_W);
  }

  lemma TwoFree(free: seq<nat>)
    requires (forall p: nat :: p in free <==> p < 3 && !BootReserved(p, 0)) && (forall j, k :: 0 <= j < k < |free| ==> free[j] > free[k])
    ensures free == [2, 1]
  {
    assert 1 in free && 2 in free && 0 !in free;
    forall k | 0 <= k < |free| ensures 1 <= free[k] <= 2 {
      assert free[k] in free;
    }
    assert free[0] == 2;
    assert |free| >= 2 && free[1] == 1;
    AtMost(free, 2);
  }

  lemma {:induction false} AtMost(list: seq<nat>, n: nat)
    requires (forall k :: 0 <= k < |list| ==> 1 <= list[k] <= n) && forall j, k :: 0 <= j < k < |list| ==> list[j] > list[k]
    ensures |list| <= n
    decreases n
  {
    if list != [] {
      assert forall k :: 0 <= k < |list[1..]| ==> list[0] > list[k + 1] == list[1..][k];
      AtMost(list[1..], n - 1);
    }
  }

  lemma NoEntries(frames: seq<Frame>)
    ensures Entries(frames, map[]) == map[]
  {}

  lemma HeadOfList(m: Mem, b: Books)
    requires Inv(m, b)
    ensures m.head == if b.free == [] then NULL else b.free[0]
  {}

  /** One reference counts for little. */
  lemma FewReferences(m: Mem, b: Books, d: nat)
    requires Inv(m, b) && b.refs == map[DirRef(d) := d]
    ensures forall p :: 0 <= p < |m.pages| && p !in b.reserved ==> m.pages[p].ref <= 1
  {
    forall p | 0 <= p < |m.pages| && p !in b.reserved ensures m.pages[p].ref <= 1 {
      assert Holders(b.refs, p) == if p == d then {DirRef(d)} else {};
    }
  }
}
