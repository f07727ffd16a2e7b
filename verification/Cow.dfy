/** Copy-on-write fork: environments that share physical pages, stepped one system call at a time,
    against environments that own copies of their pages. */
module Cow {
  import opened Wrappers
  import opened Bitmaps

  const FEC_WR: nat := 0x2
  const PTE_COW: nat := 0x800
  const PAGE_COUNT: nat := 955 * 1024
  const UXSTACK_PAGE: nat := PAGE_COUNT - 1
  const PFTEMP_PAGE: nat := 2 * 1024 - 1

  const PGSIZE: nat := 4096

  type Contents = p: seq<nat> | |p| == PGSIZE witness seq(PGSIZE, _ => 0)

  function ZeroPage(): Contents {
    seq(PGSIZE, _ => 0)
  }

  datatype Slot = Slot(env: nat, vpn: nat)

  datatype Byte = Byte(page: Slot, offset: nat)

  /** A present entry below UTOP: the physical page, and the user, write, copy-on-write and I/O
        (cache-disable or write-through) bits. */
  datatype Pte = Pte(frame: nat, user: bool, w: bool, cow: bool, io: bool)

  /** Between the two `sys_page_map` calls of `duppage`. */
  datatype Dup = Dup(vpn: nat, child: nat, io: bool)

  /** Between the system calls of `pgfault`. */
  datatype Fault = NoFault | Allocated(vpn: nat) | Copied(vpn: nat) | Moved(vpn: nat)

  /** `running` is false from `sys_exofork` to `sys_env_set_status`. */
  datatype Proc = Proc(running: bool, parent: nat, dup: Option<Dup>, fault: Fault)

  datatype State = State(ptes: map<Slot, Pte>, procs: map<nat, Proc>, mem: seq<Contents>)

  datatype Step =
    | Write(env: nat, vpn: nat, offset: nat, value: nat)
    | FaultAlloc(env: nat, vpn: nat, page: nat)
    | FaultCopy(env: nat)
    | FaultMap(env: nat)
    | FaultUnmap(env: nat)
    | PageAlloc(env: nat, vpn: nat, page: nat)
    | Exofork(env: nat, child: nat)
    | DupChild(env: nat, vpn: nat, child: nat)
    | DupParent(env: nat)
    | ExceptionStack(env: nat, child: nat, page: nat)
    | SetRunnable(env: nat, child: nat)
    | Exit(env: nat)

  // ---------------------------------------------------------------------------------------------
  // Steps

  /** `page_alloc` hands out a page no entry maps. */
  predicate Fresh(s: State, f: nat) {
    f < |s.mem| && forall a :: a in s.ptes ==> s.ptes[a].frame != f
  }

  /** The environment executes user code outside its page fault handler. */
  predicate Active(s: State, e: nat) {
    e in s.procs && s.procs[e].running && s.procs[e].fault.NoFault?
  }

  predicate Building(s: State, e: nat, c: nat) {
    c in s.procs && !s.procs[c].running && s.procs[c].parent == e && c != e
  }

  predicate Unused(s: State, c: nat) {
    c !in s.procs && forall a :: a in s.ptes ==> a.env != c
  }

  /** No fork is half way through a page of this child. */
  predicate NotAwaited(s: State, c: nat) {
    forall p :: p in s.procs && s.procs[p].dup.Some? ==> s.procs[p].dup.value.child != c
  }

  function WithoutEnv(ptes: map<Slot, Pte>, e: nat): map<Slot, Pte> {
    map a | a in ptes && a.env != e :: ptes[a]
  }

  predicate Enabled(s: State, t: Step) {
    match t
    case Write(e, v, off, _) =>
      && Active(s, e) && v != PFTEMP_PAGE && Slot(e, v) in s.ptes && s.ptes[Slot(e, v)].w && s.ptes[Slot(e, v)].user
      && s.ptes[Slot(e, v)].frame < |s.mem| && off < PGSIZE
    case FaultAlloc(e, v, f) =>
      Active(s, e) && v != PFTEMP_PAGE && Slot(e, v) in s.ptes && !s.ptes[Slot(e, v)].w && Fresh(s, f)
    case FaultCopy(e) =>
      && e in s.procs && s.procs[e].fault.Allocated? && Slot(e, PFTEMP_PAGE) in s.ptes && Slot(e, s.procs[e].fault.vpn) in s.ptes
      && s.ptes[Slot(e, s.procs[e].fault.vpn)].frame < |s.mem| && s.ptes[Slot(e, PFTEMP_PAGE)].frame < |s.mem|
    case FaultMap(e) => e in s.procs && s.procs[e].fault.Copied? && Slot(e, PFTEMP_PAGE) in s.ptes
    case FaultUnmap(e) => e in s.procs && s.procs[e].fault.Moved?
    case PageAlloc(e, v, f) =>
      Active(s, e) && s.procs[e].dup.None? && v != PFTEMP_PAGE && v < PAGE_COUNT && Fresh(s, f)
    case Exofork(e, c) => Active(s, e) && s.procs[e].dup.None? && Unused(s, c)
    case DupChild(e, v, c) =>
      && Active(s, e) && s.procs[e].dup.None? && Building(s, e, c) && v < UXSTACK_PAGE
      && Slot(e, v) in s.ptes && s.ptes[Slot(e, v)].user
    case DupParent(e) =>
      Active(s, e) && s.procs[e].dup.Some? && Slot(e, s.procs[e].dup.value.vpn) in s.ptes
    case ExceptionStack(e, c, f) => Active(s, e) && s.procs[e].dup.None? && Building(s, e, c) && Fresh(s, f)
    case SetRunnable(e, c) => Active(s, e) && s.procs[e].dup.None? && Building(s, e, c)
    case Exit(e) => e in s.procs && NotAwaited(s, e)
  }

  function SetProc(s: State, e: nat, p: Proc): State {
    s.(procs := s.procs[e := p])
  }

  function Map(s: State, a: Slot, p: Pte): State {
    s.(ptes := s.ptes[a := p])
  }

  function Fill(s: State, f: nat, x: Contents): State {
    if f < |s.mem| then s.(mem := s.mem[f := x]) else s
  }

  function Zeroed(s: State, f: nat): State {
    Fill(s, f, ZeroPage())
  }

  /** The permissions `duppage` gives: writable and copy-on-write pages become copy-on-write. */
  function Duped(p: Pte): Pte {
    Pte(p.frame, true, false, p.w || p.cow, p.io)
  }

  /** The parent's own page is remapped only when it was writable or copy-on-write. */
  function SecondHalf(p: Pte, v: nat, c: nat): Option<Dup> {
    if p.w || p.cow then Some(Dup(v, c, p.io)) else None
  }

  function Marked(f: nat, io: bool): Pte {
    Pte(f, true, false, true, io)
  }

  function Poke(p: Contents, offset: nat, x: nat): Contents
    requires offset < PGSIZE
  {
    p[offset := x]
  }

  function Private(f: nat): Pte {
    Pte(f, true, true, false, false)
  }

  function Next(s: State, t: Step): State
    requires Enabled(s, t)
  {
    match t
    case Write(e, v, off, x) =>
      Fill(s, s.ptes[Slot(e, v)].frame, Poke(s.mem[s.ptes[Slot(e, v)].frame], off, x))
    case FaultAlloc(e, v, f) =>
      SetProc(Map(Zeroed(s, f), Slot(e, PFTEMP_PAGE), Private(f)), e, s.procs[e].(fault := Allocated(v)))
    case FaultCopy(e) =>
      SetProc(Fill(s, s.ptes[Slot(e, PFTEMP_PAGE)].frame, s.mem[s.ptes[Slot(e, s.procs[e].fault.vpn)].frame]),
              e, s.procs[e].(fault := Copied(s.procs[e].fault.vpn)))
    case FaultMap(e) =>
      SetProc(Map(s, Slot(e, s.procs[e].fault.vpn), Private(s.ptes[Slot(e, PFTEMP_PAGE)].frame)),
              e, s.procs[e].(fault := Moved(s.procs[e].fault.vpn)))
    case FaultUnmap(e) => SetProc(s.(ptes := s.ptes - {Slot(e, PFTEMP_PAGE)}), e, s.procs[e].(fault := NoFault))
    case PageAlloc(e, v, f) => Map(Zeroed(s, f), Slot(e, v), Private(f))
    case Exofork(e, c) => SetProc(s, c, Proc(false, e, None, NoFault))
    case DupChild(e, v, c) =>
      SetProc(Map(s, Slot(c, v), Duped(s.ptes[Slot(e, v)])), e, s.procs[e].(dup := SecondHalf(s.ptes[Slot(e, v)], v, c)))
    case DupParent(e) =>
      SetProc(Map(s, Slot(e, s.procs[e].dup.value.vpn), Marked(s.ptes[Slot(e, s.procs[e].dup.value.vpn)].frame, s.procs[e].dup.value.io)),
              e, s.procs[e].(dup := None))
    case ExceptionStack(e, c, f) => Map(Zeroed(s, f), Slot(c, UXSTACK_PAGE), Private(f))
    case SetRunnable(e, c) => SetProc(s, c, s.procs[c].(running := true))
    case Exit(e) => State(WithoutEnv(s.ptes, e), s.procs - {e}, s.mem)
  }

  /** The panic of `pgfault` for a write fault on a page that is not copy-on-write never fires: `!`
      yields 0 or 1, and the write bit is bit 1. */
  lemma GuardNeverFires(err: nat, pte: nat)
    ensures And(And(err, FEC_WR), if And(pte, PTE_COW) == 0 then 1 else 0) == 0
  {
    assert And(err, FEC_WR) == 2 * And(err / 2, 1);
    var x := And(err, FEC_WR);
    assert And(x / 2, 0) == 0 by { AndWithZero(x / 2); }
    AndWithZero(x);
  }

  lemma {:induction false} AndWithZero(a: nat)
    ensures And(a, 0) == 0
  {
    if a > 0 { AndWithZero(a / 2); }
  }

  // ---------------------------------------------------------------------------------------------
  // The invariant

  /** A fork half way through `duppage` of page `a.vpn`: the child's entry is in place already. */
  predicate Pending(s: State, a: Slot, b: Slot) {
    a.vpn == b.vpn && a.env in s.procs && s.procs[a.env].dup.Some? && s.procs[a.env].dup.value.vpn == a.vpn && s.procs[a.env].dup.value.child == b.env
  }

  /** The fault handler has moved its copy into place and not yet dropped the temporary mapping. */
  predicate Settling(s: State, a: Slot, b: Slot) {
    && a.env == b.env && a.env in s.procs && s.procs[a.env].fault.Moved?
    && ((a.vpn == PFTEMP_PAGE && b.vpn == s.procs[a.env].fault.vpn) || (b.vpn == PFTEMP_PAGE && a.vpn == s.procs[a.env].fault.vpn))
  }

  /** A page mapped writable is mapped nowhere else. */
  ghost predicate Exclusive(s: State) {
    forall a, b :: a in s.ptes && b in s.ptes && a != b && s.ptes[a].w && s.ptes[a].frame == s.ptes[b].frame
      ==> Pending(s, a, b) || Settling(s, a, b)
  }

  ghost predicate SlotsOk(s: State) {
    forall a :: a in s.ptes ==> a.env in s.procs && s.ptes[a].frame < |s.mem|
  }

  predicate ProcOk(s: State, e: nat) {
    e in s.procs ==>
      var p := s.procs[e];
      && (!p.running ==> p.fault.NoFault? && p.dup.None?)
      && (p.dup.Some? ==> Building(s, e, p.dup.value.child) && p.dup.value.vpn < UXSTACK_PAGE && p.dup.value.vpn != PFTEMP_PAGE
                          && Slot(e, p.dup.value.vpn) in s.ptes && Slot(p.dup.value.child, p.dup.value.vpn) in s.ptes)
      && (Slot(e, PFTEMP_PAGE) in s.ptes <==> !p.fault.NoFault?)
      && (!p.fault.NoFault? ==> p.fault.vpn != PFTEMP_PAGE && Slot(e, p.fault.vpn) in s.ptes && s.ptes[Slot(e, PFTEMP_PAGE)].w)
  }

  /** The copy in the temporary page is still the faulting page's. */
  predicate CopyOk(s: State, e: nat) {
    (e in s.procs && s.procs[e].fault.Copied? && Slot(e, PFTEMP_PAGE) in s.ptes && Slot(e, s.procs[e].fault.vpn) in s.ptes)
    ==> At(s, Slot(e, PFTEMP_PAGE)) == At(s, Slot(e, s.procs[e].fault.vpn))
  }

  ghost predicate ProcsOk(s: State) {
    forall e :: ProcOk(s, e) && CopyOk(s, e)
  }

  ghost predicate Inv(s: State) {
    SlotsOk(s) && ProcsOk(s) && Exclusive(s)
  }

  // ---------------------------------------------------------------------------------------------
  // What environments see

  /** The contents an environment reads at a page. */
  function At(s: State, a: Slot): Contents {
    if a in s.ptes && s.ptes[a].frame < |s.mem| then s.mem[s.ptes[a].frame] else ZeroPage()
  }

  /** The private memories: every page of every environment but the handler's temporary one. */
  function View(s: State): map<Slot, Contents> {
    map a | a in s.ptes && a.vpn != PFTEMP_PAGE :: At(s, a)
  }

  // ---------------------------------------------------------------------------------------------
  // Every step keeps the invariant

  /** A page of an environment that is outside its handler is writable nowhere else. */
  lemma OnlyMine(s: State, a: Slot)
    requires Inv(s) && a in s.ptes && Active(s, a.env)
    ensures forall b :: b in s.ptes && b != a && s.ptes[b].frame == s.ptes[a].frame ==> !s.ptes[b].w
  {
    forall b | b in s.ptes && b != a && s.ptes[b].frame == s.ptes[a].frame ensures !s.ptes[b].w {
      assert ProcOk(s, b.env);
    }
  }

  /** The handler's new page is mapped nowhere else until it is moved into place. */
  lemma OnlyTemp(s: State, e: nat)
    requires Inv(s) && e in s.procs && (s.procs[e].fault.Allocated? || s.procs[e].fault.Copied?)
    ensures Slot(e, PFTEMP_PAGE) in s.ptes && s.ptes[Slot(e, PFTEMP_PAGE)].w
    ensures forall b :: b in s.ptes && b != Slot(e, PFTEMP_PAGE) ==> s.ptes[b].frame != s.ptes[Slot(e, PFTEMP_PAGE)].frame
  {
    assert ProcOk(s, e);
    forall b | b in s.ptes && b != Slot(e, PFTEMP_PAGE) ensures s.ptes[b].frame != s.ptes[Slot(e, PFTEMP_PAGE)].frame {
      assert !Pending(s, Slot(e, PFTEMP_PAGE), b);
    }
  }

  lemma WriteInv(s: State, t: Step)
    requires Inv(s) && Enabled(s, t) && t.Write?
    ensures Inv(Next(s, t))
  {
    var s' := Next(s, t);
    var a := Slot(t.env, t.vpn);
    forall e ensures ProcOk(s', e) && CopyOk(s', e) {
      assert ProcOk(s, e) && CopyOk(s, e) && ProcOk(s, t.env);
    }
  }

  lemma FaultAllocInv(s: State, t: Step)
    requires Inv(s) && Enabled(s, t) && t.FaultAlloc?
    ensures Inv(Next(s, t))
  {
    var s' := Next(s, t);
    assert ProcOk(s, t.env);
    assert SlotsOk(s');
    assert ProcsOk(s') by {
      hide Exclusive;
      forall e ensures ProcOk(s', e) && CopyOk(s', e) {
        assert ProcOk(s, e) && CopyOk(s, e);
      }
    }
    assert Exclusive(s') by {
      hide ProcsOk, CopyOk;
      forall a, b | a in s'.ptes && b in s'.ptes && a != b && s'.ptes[a].w && s'.ptes[a].frame == s'.ptes[b].frame
        ensures Pending(s', a, b) || Settling(s', a, b)
      {
        assert Pending(s, a, b) || Settling(s, a, b);
      }
    }
  }

  lemma FaultCopyInv(s: State, t: Step)
    requires Inv(s) && Enabled(s, t) && t.FaultCopy?
    ensures Inv(Next(s, t))
  {
    var s' := Next(s, t);
    forall e ensures ProcOk(s', e) && CopyOk(s', e) {
      assert ProcOk(s, e) && CopyOk(s, e) && ProcOk(s, t.env);
    }
  }

  lemma FaultMapInv(s: State, t: Step)
    requires Inv(s) && Enabled(s, t) && t.FaultMap?
    ensures Inv(Next(s, t))
  {
    var s' := Next(s, t);
    assert ProcOk(s, t.env);
    var moved, temp := Slot(t.env, s.procs[t.env].fault.vpn), Slot(t.env, PFTEMP_PAGE);
    OnlyTemp(s, t.env);
    assert SlotsOk(s');
    assert ProcsOk(s') by {
      hide Exclusive;
      forall e ensures ProcOk(s', e) && CopyOk(s', e) {
        assert ProcOk(s, e) && CopyOk(s, e);
      }
    }
    assert Exclusive(s') by {
      hide ProcsOk, ProcOk, CopyOk;
      forall a, b | a in s'.ptes && b in s'.ptes && a != b && s'.ptes[a].w && s'.ptes[a].frame == s'.ptes[b].frame
        ensures Pending(s', a, b) || Settling(s', a, b)
      {
        if a == moved || b == moved {
          assert a == temp || b == temp;
        } else {
          assert Pending(s, a, b) || Settling(s, a, b);
        }
      }
    }
  }

  lemma FaultUnmapInv(s: State, t: Step)
    requires Inv(s) && Enabled(s, t) && t.FaultUnmap?
    ensures Inv(Next(s, t))
  {
    var s' := Next(s, t);
    assert ProcOk(s, t.env);
    assert SlotsOk(s');
    assert ProcsOk(s') by {
      hide Exclusive;
      forall e ensures ProcOk(s', e) && CopyOk(s', e) {
        assert ProcOk(s, e) && CopyOk(s, e);
      }
    }
    assert Exclusive(s') by {
      hide ProcsOk, CopyOk;
      forall a, b | a in s'.ptes && b in s'.ptes && a != b && s'.ptes[a].w && s'.ptes[a].frame == s'.ptes[b].frame
        ensures Pending(s', a, b) || Settling(s', a, b)
      {
        assert Pending(s, a, b) || Settling(s, a, b);
      }
    }
  }

  lemma PageAllocInv(s: State, t: Step)
    requires Inv(s) && Enabled(s, t) && t.PageAlloc?
    ensures Inv(Next(s, t))
  {
    var s' := Next(s, t);
    forall e ensures ProcOk(s', e) && CopyOk(s', e) {
      assert ProcOk(s, e) && CopyOk(s, e) && ProcOk(s, t.env);
    }
  }

  lemma ExoforkInv(s: State, t: Step)
    requires Inv(s) && Enabled(s, t) && t.Exofork?
    ensures Inv(Next(s, t))
  {
    var s' := Next(s, t);
    forall e ensures ProcOk(s', e) && CopyOk(s', e) {
      assert ProcOk(s, e) && CopyOk(s, e) && ProcOk(s, t.env);
    }
  }

  lemma DupChildInv(s: State, t: Step)
    requires Inv(s) && Enabled(s, t) && t.DupChild?
    ensures Inv(Next(s, t))
  {
    var s' := Next(s, t);
    var mine, given := Slot(t.env, t.vpn), Slot(t.child, t.vpn);
    OnlyMine(s, mine);
    assert ProcsOk(s') by {
      hide Exclusive;
      assert ProcOk(s, t.env) && ProcOk(s, t.child);
      forall e ensures ProcOk(s', e) && CopyOk(s', e) {
        assert ProcOk(s, e) && CopyOk(s, e);
      }
    }
    assert Exclusive(s') by {
      hide ProcsOk, CopyOk;
      forall a, b | a in s'.ptes && b in s'.ptes && a != b && s'.ptes[a].w && s'.ptes[a].frame == s'.ptes[b].frame
        ensures Pending(s', a, b) || Settling(s', a, b)
      {
        if b == given {
          assert a == mine;
        } else {
          assert Pending(s, a, b) || Settling(s, a, b);
        }
      }
    }
  }

  lemma DupParentInv(s: State, t: Step)
    requires Inv(s) && Enabled(s, t) && t.DupParent?
    ensures Inv(Next(s, t))
  {
    var s' := Next(s, t);
    assert ProcOk(s, t.env);
    assert SlotsOk(s');
    OnlyMine(s, Slot(t.env, s.procs[t.env].dup.value.vpn));
    assert ProcsOk(s') by {
      hide Exclusive;
      forall e ensures ProcOk(s', e) && CopyOk(s', e) {
        assert ProcOk(s, e) && CopyOk(s, e);
      }
    }
    assert Exclusive(s') by {
      hide ProcsOk, ProcOk, CopyOk;
      forall a, b | a in s'.ptes && b in s'.ptes && a != b && s'.ptes[a].w && s'.ptes[a].frame == s'.ptes[b].frame
        ensures Pending(s', a, b) || Settling(s', a, b)
      {
        assert Pending(s, a, b) || Settling(s, a, b);
      }
    }
  }

  lemma ExceptionStackInv(s: State, t: Step)
    requires Inv(s) && Enabled(s, t) && t.ExceptionStack?
    ensures Inv(Next(s, t))
  {
    var s' := Next(s, t);
    forall e ensures ProcOk(s', e) && CopyOk(s', e) {
      assert ProcOk(s, e) && CopyOk(s, e) && ProcOk(s, t.env);
    }
  }

  lemma SetRunnableInv(s: State, t: Step)
    requires Inv(s) && Enabled(s, t) && t.SetRunnable?
    ensures Inv(Next(s, t))
  {
    var s' := Next(s, t);
    forall e ensures ProcOk(s', e) && CopyOk(s', e) {
      assert ProcOk(s, e) && CopyOk(s, e) && ProcOk(s, t.env);
    }
  }

  lemma ExitInv(s: State, t: Step)
    requires Inv(s) && Enabled(s, t) && t.Exit?
    ensures Inv(Next(s, t))
  {
    var s' := Next(s, t);
    forall e ensures ProcOk(s', e) && CopyOk(s', e) {
      assert ProcOk(s, e) && CopyOk(s, e) && ProcOk(s, t.env);
    }
  }

  lemma StepInv(s: State, t: Step)
    requires Inv(s) && Enabled(s, t)
    ensures Inv(Next(s, t))
  {
    hide Inv, Enabled, Next;
    match t
    case Write(_, _, _, _) => WriteInv(s, t);
    case FaultAlloc(_, _, _) => FaultAllocInv(s, t);
    case FaultCopy(_) => FaultCopyInv(s, t);
    case FaultMap(_) => FaultMapInv(s, t);
    case FaultUnmap(_) => FaultUnmapInv(s, t);
    case PageAlloc(_, _, _) => PageAllocInv(s, t);
    case Exofork(_, _) => ExoforkInv(s, t);
    case DupChild(_, _, _) => DupChildInv(s, t);
    case DupParent(_) => DupParentInv(s, t);
    case ExceptionStack(_, _, _) => ExceptionStackInv(s, t);
    case SetRunnable(_, _) => SetRunnableInv(s, t);
    case Exit(_) => ExitInv(s, t);
  }

  // ---------------------------------------------------------------------------------------------
  // Refinement of memories that are copied at once

  /** The same step on private memories: `duppage` copies the page, page faults do nothing. */
  function Eager(m: map<Slot, Contents>, t: Step): map<Slot, Contents> {
    match t
    case Write(e, v, off, x) => if Slot(e, v) in m && off < PGSIZE then m[Slot(e, v) := Poke(m[Slot(e, v)], off, x)] else m
    case PageAlloc(e, v, _) => m[Slot(e, v) := ZeroPage()]
    case DupChild(e, v, c) => if Slot(e, v) in m then m[Slot(c, v) := m[Slot(e, v)]] else m
    case ExceptionStack(_, c, _) => m[Slot(c, UXSTACK_PAGE) := ZeroPage()]
    case Exit(e) => EagerExit(m, e)
    case _ => m
  }

  function EagerExit(m: map<Slot, Contents>, e: nat): map<Slot, Contents> {
    map a | a in m && a.env != e :: m[a]
  }

  /** A write by a parent that is between the two halves of `duppage` for that very page, which it
      still shares with the child, and that changes a byte. */
  predicate Leaks(s: State, t: Step) {
    && t.Write? && t.env in s.procs && s.procs[t.env].dup.Some? && s.procs[t.env].dup.value.vpn == t.vpn
    && Slot(t.env, t.vpn) in s.ptes && Slot(s.procs[t.env].dup.value.child, t.vpn) in s.ptes
    && s.ptes[Slot(s.procs[t.env].dup.value.child, t.vpn)].frame == s.ptes[Slot(t.env, t.vpn)].frame
    && t.offset < PGSIZE && At(s, Slot(t.env, t.vpn))[t.offset] != t.value
  }

  /** What a write does to every memory. */
  lemma WriteSeen(s: State, t: Step, b: Slot)
    requires Inv(s) && Enabled(s, t) && t.Write?
    ensures var a := Slot(t.env, t.vpn);
      At(Next(s, t), b) ==
        if b == a || (b in s.ptes && Pending(s, a, b) && s.ptes[b].frame == s.ptes[a].frame) then Poke(At(s, a), t.offset, t.value)
        else At(s, b)
  {
    var a := Slot(t.env, t.vpn);
    assert Exclusive(s);
    if b in s.ptes && b != a && s.ptes[b].frame == s.ptes[a].frame {
      assert Pending(s, a, b);
    }
  }

  lemma WriteRefines(s: State, t: Step)
    requires Inv(s) && Enabled(s, t) && t.Write?
    ensures View(Next(s, t)) == Eager(View(s), t) <==> !Leaks(s, t)
  {
    var s', a := Next(s, t), Slot(t.env, t.vpn);
    forall b ensures At(s', b) == if b == a || (b in s.ptes && Pending(s, a, b) && s.ptes[b].frame == s.ptes[a].frame) then Poke(At(s, a), t.offset, t.value) else At(s, b) {
      WriteSeen(s, t, b);
    }
    hide At;
    assert ProcOk(s, t.env);
    if Leaks(s, t) {
      var b := Slot(s.procs[t.env].dup.value.child, t.vpn);
      assert View(s')[b][t.offset] == t.value && Eager(View(s), t)[b] == At(s, b);
    } else {
      forall b | b in View(s') ensures View(s')[b] == Eager(View(s), t)[b] {
        if Pending(s, a, b) && s.ptes[b].frame == s.ptes[a].frame {
          assert Poke(At(s, a), t.offset, t.value) == At(s, a);
        }
      }
    }
  }

  /** Filling a page nobody maps shows nowhere. */
  lemma FreshUnseen(s: State, f: nat, x: Contents)
    requires Fresh(s, f)
    ensures forall a :: a in s.ptes ==> At(Fill(s, f, x), a) == At(s, a)
  {}

  lemma FillUnseen(s: State, f: nat, x: Contents, a: Slot)
    requires a in s.ptes && s.ptes[a].frame != f
    ensures At(Fill(s, f, x), a) == At(s, a)
  {}

  /** Two states with the same visible entries and contents show the same memories. */
  lemma SameView(s: State, s': State)
    requires forall a: Slot :: a.vpn != PFTEMP_PAGE ==> (a in s'.ptes <==> a in s.ptes) && (a in s.ptes ==> At(s', a) == At(s, a))
    ensures View(s') == View(s)
  {
    hide At;
  }

  lemma FaultAllocRefines(s: State, t: Step)
    requires Inv(s) && Enabled(s, t) && t.FaultAlloc?
    ensures View(Next(s, t)) == View(s)
  {
    hide Inv;
    FreshUnseen(s, t.page, ZeroPage());
    SameView(s, Next(s, t));
  }

  lemma FaultCopyRefines(s: State, t: Step)
    requires Inv(s) && Enabled(s, t) && t.FaultCopy?
    ensures View(Next(s, t)) == View(s)
  {
    hide Inv, View;
    OnlyTemp(s, t.env);
    var temp := s.ptes[Slot(t.env, PFTEMP_PAGE)].frame;
    var x := s.mem[s.ptes[Slot(t.env, s.procs[t.env].fault.vpn)].frame];
    forall a | a in s.ptes && a.vpn != PFTEMP_PAGE ensures At(Fill(s, temp, x), a) == At(s, a) {
      FillUnseen(s, temp, x, a);
    }
    SameView(s, Next(s, t));
  }

  lemma FaultMapRefines(s: State, t: Step)
    requires Inv(s) && Enabled(s, t) && t.FaultMap?
    ensures View(Next(s, t)) == View(s)
  {
    assert ProcOk(s, t.env) && CopyOk(s, t.env);
    hide Inv, View;
    SameView(s, Next(s, t));
  }

  /** The handler's steps change no page anybody sees: the copy is moved in after it is made. */
  lemma FaultRefines(s: State, t: Step)
    requires Inv(s) && Enabled(s, t) && (t.FaultAlloc? || t.FaultCopy? || t.FaultMap? || t.FaultUnmap?)
    ensures View(Next(s, t)) == View(s)
  {
    hide Inv, View;
    match t
    case FaultAlloc(_, _, _) => FaultAllocRefines(s, t);
    case FaultCopy(_) => FaultCopyRefines(s, t);
    case FaultMap(_) => FaultMapRefines(s, t);
    case FaultUnmap(_) => SameView(s, Next(s, t));
  }

  /** A page allocated for `a`, in a frame nobody maps. */
  lemma FreshRefines(s: State, a: Slot, f: nat, s': State)
    requires Fresh(s, f) && a.vpn != PFTEMP_PAGE && s' == Map(Zeroed(s, f), a, Private(f))
    ensures View(s') == View(s)[a := ZeroPage()]
  {
    FreshUnseen(s, f, ZeroPage());
    assert At(s', a) == ZeroPage();
    forall b | b in s.ptes && b != a ensures At(s', b) == At(s, b) {
      assert At(s', b) == At(Fill(s, f, ZeroPage()), b);
    }
    hide At;
  }

  /** A page allocated, forked or dropped: one entry of the memories changes. */
  lemma MapRefines(s: State, t: Step)
    requires Inv(s) && Enabled(s, t) && !t.Write? && !t.FaultAlloc? && !t.FaultCopy? && !t.FaultMap? && !t.FaultUnmap?
    ensures View(Next(s, t)) == Eager(View(s), t)
  {
    assert SlotsOk(s) && ProcOk(s, t.env);
    hide Inv, ProcsOk, Exclusive;
    var s' := Next(s, t);
    if t.PageAlloc? {
      FreshRefines(s, Slot(t.env, t.vpn), t.page, s');
    } else if t.ExceptionStack? {
      FreshRefines(s, Slot(t.child, UXSTACK_PAGE), t.page, s');
    } else {
      hide Fresh;
      forall a | a in View(s') ensures a in Eager(View(s), t) && At(s', a) == Eager(View(s), t)[a] {}
    }
  }

  /** Every step refines the eager one, except exactly the leaking writes. */
  lemma StepRefines(s: State, t: Step)
    requires Inv(s) && Enabled(s, t)
    ensures View(Next(s, t)) == Eager(View(s), t) <==> !Leaks(s, t)
  {
    hide Inv, Enabled, Next, View;
    if t.Write? {
      WriteRefines(s, t);
    } else if t.FaultAlloc? || t.FaultCopy? || t.FaultMap? || t.FaultUnmap? {
      FaultRefines(s, t);
    } else {
      MapRefines(s, t);
    }
  }

  /** The page a leaking write shows up in, besides its own. */
  predicate LeaksTo(s: State, t: Step, a: Slot) {
    Leaks(s, t) && a == Slot(s.procs[t.env].dup.value.child, t.vpn)
  }

  /** Page by page: every step changes each memory as the eager one does, except for the one page a
      leaking write reaches, where it does not. */
  lemma StepRefinesAt(s: State, t: Step, a: Slot)
    requires Inv(s) && Enabled(s, t)
    ensures View(Next(s, t)).Keys == Eager(View(s), t).Keys
    ensures a in View(Next(s, t)) ==> (View(Next(s, t))[a] == Eager(View(s), t)[a] <==> !LeaksTo(s, t, a))
    ensures LeaksTo(s, t, a) ==> a in View(Next(s, t))
  {
    StepRefines(s, t);
    if Leaks(s, t) {
      LeakSeen(s, t, a);
    }
  }

  lemma LeakSeen(s: State, t: Step, a: Slot)
    requires Inv(s) && Enabled(s, t) && Leaks(s, t)
    ensures View(Next(s, t)).Keys == Eager(View(s), t).Keys
    ensures a in View(Next(s, t)) ==>
      View(Next(s, t))[a] == if LeaksTo(s, t, a) then Poke(At(s, a), t.offset, t.value) else Eager(View(s), t)[a]
    ensures LeaksTo(s, t, a) ==> a in View(s) && Eager(View(s), t)[a] == At(s, a) && At(s, a)[t.offset] != t.value
  {
    WriteSeen(s, t, a);
    assert ProcOk(s, t.env);
    hide Inv;
  }

  // ---------------------------------------------------------------------------------------------
  // Runs

  predicate Init(s: State) {
    && (forall a :: a in s.ptes ==> a.env in s.procs && s.ptes[a].frame < |s.mem| && a.vpn != PFTEMP_PAGE)
    && (forall e :: e in s.procs ==> s.procs[e].running && s.procs[e].dup.None? && s.procs[e].fault.NoFault?)
    && (forall a, b :: a in s.ptes && b in s.ptes && s.ptes[a].frame == s.ptes[b].frame && s.ptes[a].w ==> a == b)
  }

  predicate Runs(s: State, steps: seq<Step>, s': State)
    decreases |steps|
  {
    if steps == [] then s' == s else Enabled(s, steps[0]) && Runs(Next(s, steps[0]), steps[1..], s')
  }

  predicate NoLeak(s: State, steps: seq<Step>)
    decreases |steps|
  {
    steps == [] || (Enabled(s, steps[0]) && !Leaks(s, steps[0]) && NoLeak(Next(s, steps[0]), steps[1..]))
  }

  function EagerRun(m: map<Slot, Contents>, steps: seq<Step>): map<Slot, Contents>
    decreases |steps|
  {
    if steps == [] then m else EagerRun(Eager(m, steps[0]), steps[1..])
  }

  lemma InitInv(s: State)
    requires Init(s)
    ensures Inv(s)
  {
    forall e ensures ProcOk(s, e) && CopyOk(s, e) {}
  }

  lemma {:induction false} RunInv(s: State, steps: seq<Step>, s': State)
    requires Inv(s) && Runs(s, steps, s')
    ensures Inv(s')
    decreases |steps|
  {
    hide Inv, Enabled, Next;
    if steps != [] {
      StepInv(s, steps[0]);
      RunInv(Next(s, steps[0]), steps[1..], s');
    }
  }

  /** Memories with the same pages, and the same bytes outside `bad`. */
  predicate Agree(m: map<Slot, Contents>, m': map<Slot, Contents>, bad: set<Byte>) {
    && m.Keys == m'.Keys
    && forall a, i: nat :: a in m && i < PGSIZE && m[a][i] != m'[a][i] ==> Byte(a, i) in bad
  }

  /** The byte a leaking write makes wrong: its own offset, in the child's page. */
  function Leaked(s: State, t: Step): set<Byte> {
    if Leaks(s, t) then {Byte(Slot(s.procs[t.env].dup.value.child, t.vpn), t.offset)} else {}
  }

  function Elsewhere(bad: set<Byte>, a: Slot): set<Byte> {
    set b | b in bad && b.page != a
  }

  /** How wrong bytes spread: a fork copies them; a write of the byte or a new page replaces them. */
  function Spread(t: Step, bad: set<Byte>): set<Byte> {
    match t
    case Write(e, v, off, _) => bad - {Byte(Slot(e, v), off)}
    case PageAlloc(e, v, _) => Elsewhere(bad, Slot(e, v))
    case DupChild(e, v, c) =>
      Elsewhere(bad, Slot(c, v)) + set b | b in bad && b.page == Slot(e, v) :: Byte(Slot(c, v), b.offset)
    case ExceptionStack(_, c, _) => Elsewhere(bad, Slot(c, UXSTACK_PAGE))
    case Exit(e) => set b | b in bad && b.page.env != e
    case _ => bad
  }

  /** The bytes that a run from `s`, in which those in `bad` are wrong already, may leave wrong. */
  function Tainted(s: State, steps: seq<Step>, bad: set<Byte>): set<Byte>
    decreases |steps|
  {
    if steps == [] || !Enabled(s, steps[0]) then bad
    else Tainted(Next(s, steps[0]), steps[1..], Spread(steps[0], bad) + Leaked(s, steps[0]))
  }

  lemma EagerAgrees(m: map<Slot, Contents>, m': map<Slot, Contents>, t: Step, bad: set<Byte>)
    requires Agree(m, m', bad) && (t.DupChild? ==> Slot(t.env, t.vpn) in m)
    ensures Agree(Eager(m, t), Eager(m', t), Spread(t, bad))
  {
    var n, n' := Eager(m, t), Eager(m', t);
    forall a, i: nat | a in n && i < PGSIZE && n[a][i] != n'[a][i] ensures Byte(a, i) in Spread(t, bad) {
      if t.DupChild? && Slot(t.env, t.vpn) in m && a == Slot(t.child, t.vpn) {
        assert Byte(Slot(t.env, t.vpn), i) in bad;
      } else {
        assert a in m && m[a][i] != m'[a][i];
      }
    }
  }

  /** One step against the eager one: all bytes agree but the one it leaks. */
  lemma StepAgrees(s: State, t: Step)
    requires Inv(s) && Enabled(s, t)
    ensures Agree(View(Next(s, t)), Eager(View(s), t), Leaked(s, t))
  {
    hide Inv, Enabled, Next, View, Eager;
    if Leaks(s, t) {
      var n, n' := View(Next(s, t)), Eager(View(s), t);
      LeakSeen(s, t, Slot(t.env, t.vpn));
      forall a, i: nat | a in n && i < PGSIZE && n[a][i] != n'[a][i] ensures Byte(a, i) in Leaked(s, t) {
        LeakSeen(s, t, a);
      }
    } else {
      StepRefines(s, t);
    }
  }

  lemma ParentSees(s: State, t: Step)
    requires Inv(s) && Enabled(s, t) && t.DupChild?
    ensures Slot(t.env, t.vpn) in View(s)
  {
    assert ProcOk(s, t.env);
  }

  lemma {:induction false} RunAgrees(s: State, steps: seq<Step>, s': State, m: map<Slot, Contents>, bad: set<Byte>)
    requires Inv(s) && Runs(s, steps, s') && Agree(View(s), m, bad)
    ensures Agree(View(s'), EagerRun(m, steps), Tainted(s, steps, bad))
    decreases |steps|
  {
    hide Inv, Enabled, Next, View, Eager, Leaked, Spread;
    if steps != [] {
      StepInv(s, steps[0]);
      StepAgrees(s, steps[0]);
      if steps[0].DupChild? { ParentSees(s, steps[0]); }
      EagerAgrees(View(s), m, steps[0], bad);
      RunAgrees(Next(s, steps[0]), steps[1..], s', Eager(m, steps[0]), Spread(steps[0], bad) + Leaked(s, steps[0]));
    }
  }

  lemma {:induction false} NothingTainted(s: State, steps: seq<Step>)
    requires NoLeak(s, steps)
    ensures Tainted(s, steps, {}) == {}
    decreases |steps|
  {
    hide Enabled, Next, Leaks;
    if steps != [] {
      NothingTainted(Next(s, steps[0]), steps[1..]);
      assert Spread(steps[0], {}) + Leaked(s, steps[0]) == {};
    }
  }

  /** Sharing pages is invisible: after any run of forks, faults and writes by any environments, each
      has the pages it would have had with pages copied at fork time, and the same bytes in them, but
      for bytes leaked by a parent in the middle of `duppage` and copies of those made since. */
  lemma RunRefines(s: State, steps: seq<Step>, s': State)
    requires Inv(s) && Runs(s, steps, s')
    ensures Agree(View(s'), EagerRun(View(s), steps), Tainted(s, steps, {}))
    ensures NoLeak(s, steps) ==> View(s') == EagerRun(View(s), steps)
  {
    hide Inv, Runs, View, EagerRun, Tainted;
    RunAgrees(s, steps, s', View(s), {});
    if NoLeak(s, steps) {
      NothingTainted(s, steps);
      AgreeEverywhere(View(s'), EagerRun(View(s), steps));
    }
  }

  lemma AgreeEverywhere(m: map<Slot, Contents>, m': map<Slot, Contents>)
    requires Agree(m, m', {})
    ensures m == m'
  {
    forall a | a in m ensures m[a] == m'[a] {
      assert forall i: nat :: i < PGSIZE ==> m[a][i] == m'[a][i];
    }
  }

  /** At every moment of the run the memories are the eager ones. */
  predicate Tracks(s: State, m: map<Slot, Contents>, steps: seq<Step>)
    decreases |steps|
  {
    View(s) == m && (steps == [] || (Enabled(s, steps[0]) && Tracks(Next(s, steps[0]), Eager(m, steps[0]), steps[1..])))
  }

  /** A run tracks the eager one at every moment if and only if none of its steps leaks. */
  lemma {:induction false} TracksExactly(s: State, steps: seq<Step>, s': State)
    requires Inv(s) && Runs(s, steps, s')
    ensures Tracks(s, View(s), steps) <==> NoLeak(s, steps)
    decreases |steps|
  {
    hide Inv, Enabled, Next, View, Eager, Leaks;
    if steps != [] {
      StepInv(s, steps[0]);
      StepRefines(s, steps[0]);
      TracksExactly(Next(s, steps[0]), steps[1..], s');
    }
  }

  /** The steps that mean to change a page of this environment. */
  predicate Touches(t: Step, a: Slot) {
    match t
    case Write(e, v, _, _) => a == Slot(e, v)
    case PageAlloc(e, v, _) => a == Slot(e, v)
    case DupChild(_, v, c) => a == Slot(c, v)
    case ExceptionStack(_, c, _) => a == Slot(c, UXSTACK_PAGE)
    case Exit(e) => a.env == e
    case _ => false
  }

  /** No step of the run leaks onto this page. */
  predicate NoLeakTo(s: State, steps: seq<Step>, a: Slot)
    decreases |steps|
  {
    steps == [] || (Enabled(s, steps[0]) && !LeaksTo(s, steps[0], a) && NoLeakTo(Next(s, steps[0]), steps[1..], a))
  }

  /** Isolation: whatever happens to other pages, and leaks onto them, a page keeps its contents until
      its own environment changes it. */
  lemma {:induction false} Isolation(s: State, steps: seq<Step>, s': State, a: Slot)
    requires Inv(s) && Runs(s, steps, s') && NoLeakTo(s, steps, a) && a in View(s)
    requires forall i :: 0 <= i < |steps| ==> !Touches(steps[i], a)
    ensures a in View(s') && View(s')[a] == View(s)[a]
    decreases |steps|
  {
    hide Inv, Enabled, Next, View, LeaksTo;
    if steps != [] {
      assert !Touches(steps[0], a);
      StepInv(s, steps[0]);
      StepRefinesAt(s, steps[0], a);
      Isolation(Next(s, steps[0]), steps[1..], s', a);
    }
  }

  /** The child's page is a snapshot: until the child changes it, it holds what the parent's page held
      when it was shared, whatever the parent does, save for a leak onto this very page. */
  lemma ForkSnapshot(s: State, e: nat, v: nat, c: nat, steps: seq<Step>, s': State)
    requires Inv(s) && Enabled(s, DupChild(e, v, c))
    requires var s1 := Next(s, DupChild(e, v, c)); Runs(s1, steps, s') && NoLeakTo(s1, steps, Slot(c, v))
    requires forall i :: 0 <= i < |steps| ==> !Touches(steps[i], Slot(c, v))
    ensures Slot(c, v) in s'.ptes && At(s', Slot(c, v)) == At(s, Slot(e, v))
  {
    hide Runs, NoLeakTo, Touches;
    assert ProcOk(s, e);
    var s1 := Next(s, DupChild(e, v, c));
    assert At(s1, Slot(c, v)) == At(s, Slot(e, v)) && Slot(c, v) in View(s1);
    StepInv(s, DupChild(e, v, c));
    Isolation(s1, steps, s', Slot(c, v));
  }

  /** Writes by one environment. */
  predicate WritesOf(steps: seq<Step>, e: nat) {
    forall i :: 0 <= i < |steps| ==> steps[i].Write? && steps[i].env == e
  }

  lemma {:induction false} WritesMapNothing(s: State, steps: seq<Step>, s': State, e: nat)
    requires Runs(s, steps, s') && WritesOf(steps, e)
    ensures s'.ptes == s.ptes && s'.procs == s.procs && |s'.mem| == |s.mem|
    decreases |steps|
  {
    if steps != [] {
      assert steps[0].Write?;
      WritesMapNothing(Next(s, steps[0]), steps[1..], s', e);
    }
  }

  /** What the parent writes to a writable page between the two halves of `duppage`, as `fork` does
      to its own stack page by making the second call, both get: after it the child's page is the
      parent's page at the second call, and neither can write it. */
  lemma ParentWritesBetween(s: State, e: nat, v: nat, c: nat, steps: seq<Step>, s': State)
    requires Inv(s) && Enabled(s, DupChild(e, v, c)) && s.ptes[Slot(e, v)].w
    requires Runs(Next(s, DupChild(e, v, c)), steps, s') && WritesOf(steps, e)
    ensures Enabled(s', DupParent(e))
    ensures var s2 := Next(s', DupParent(e));
      && At(s2, Slot(c, v)) == At(s2, Slot(e, v)) == At(s', Slot(e, v))
      && Slot(c, v) in s2.ptes && !s2.ptes[Slot(c, v)].w && Slot(e, v) in s2.ptes && !s2.ptes[Slot(e, v)].w
      && forall a: Slot :: a.env != c && a.env != e ==> At(s2, a) == At(s, a)
  {
    hide Runs;
    assert ProcOk(s, e);
    var s1 := Next(s, DupChild(e, v, c));
    WritesMapNothing(s1, steps, s', e);
    StepInv(s, DupChild(e, v, c));
    forall a: Slot | a.env != c && a.env != e ensures At(s', a) == At(s1, a) {
      WritesReach(s1, steps, s', e, v, c, a);
    }
  }

  /** Writes of a parent in the middle of `duppage` reach itself and that child only. */
  lemma {:induction false} WritesReach(s: State, steps: seq<Step>, s': State, e: nat, v: nat, c: nat, a: Slot)
    requires Inv(s) && Runs(s, steps, s') && WritesOf(steps, e) && e in s.procs && s.procs[e].dup.Some? && s.procs[e].dup.value.child == c
    requires a.env != e && a.env != c
    ensures At(s', a) == At(s, a)
    decreases |steps|
  {
    hide Inv, At;
    if steps != [] {
      assert steps[0].Write?;
      StepInv(s, steps[0]);
      WriteSeen(s, steps[0], a);
      WritesReach(Next(s, steps[0]), steps[1..], s', e, v, c, a);
    }
  }

  /** In every reachable state a page mapped writable in one environment is mapped in no other,
      unless the former is a parent half way through forking it to the latter. */
  lemma WritableIsUnshared(s: State, steps: seq<Step>, s': State, a: Slot, b: Slot)
    requires Init(s) && Runs(s, steps, s')
    requires a in s'.ptes && b in s'.ptes && a.env != b.env && s'.ptes[a].w && s'.ptes[a].frame == s'.ptes[b].frame
    ensures Pending(s', a, b)
  {
    hide Runs;
    InitInv(s);
    RunInv(s, steps, s');
  }

  /** What a write does to the page it writes: the byte, and no other. */
  lemma WriteIsSeen(s: State, t: Step, k: nat)
    requires Inv(s) && Enabled(s, t) && t.Write? && k < PGSIZE
    ensures At(Next(s, t), Slot(t.env, t.vpn))[k] == if k == t.offset then t.value else At(s, Slot(t.env, t.vpn))[k]
  {
    WriteSeen(s, t, Slot(t.env, t.vpn));
  }

  /** A page from `sys_page_alloc` reads as zeros, and belongs to its environment alone. */
  lemma NewPageIs(s: State, t: Step, k: nat)
    requires Inv(s) && Enabled(s, t) && t.PageAlloc? && k < PGSIZE
    ensures var s', a := Next(s, t), Slot(t.env, t.vpn);
      && At(s', a)[k] == 0 && s'.ptes[a] == Pte(t.page, true, true, false, false)
      && forall b :: b in s'.ptes && b != a ==> s'.ptes[b].frame != t.page
  {}

  /** Once `duppage` has finished a page, neither side can write the other's. */
  lemma DupedIsClean(s: State, e: nat, v: nat, c: nat)
    requires Inv(s) && Enabled(s, DupChild(e, v, c))
    ensures var s1 := Next(s, DupChild(e, v, c));
      && At(s1, Slot(c, v)) == At(s, Slot(e, v))
      && (s1.procs[e].dup.Some? <==> s.ptes[Slot(e, v)].w || s.ptes[Slot(e, v)].cow)
      && (s1.procs[e].dup.Some? ==> Enabled(s1, DupParent(e)))
      && var s2 := if s1.procs[e].dup.Some? then Next(s1, DupParent(e)) else s1;
        CowShared(s.ptes[Slot(e, v)], s2.ptes[Slot(e, v)], s2.ptes[Slot(c, v)])
  {
    assert ProcOk(s, e);
  }

  lemma FirstStep(s: State, t: Step, steps: seq<Step>, s': State, m: map<Slot, Contents>)
    requires Enabled(s, t) && Runs(Next(s, t), steps, s')
    ensures Runs(s, [t] + steps, s') && EagerRun(m, [t] + steps) == EagerRun(Eager(m, t), steps)
  {
    assert ([t] + steps)[1..] == steps;
  }

  /** The window is real: a byte the parent writes between the two halves appears in the child. */
  lemma WindowLeaks() returns (s: State, steps: seq<Step>, s': State)
    ensures Init(s) && Runs(s, steps, s') && steps == [Exofork(1, 2), DupChild(1, 5, 2), Write(1, 5, 0, 7), DupParent(1)]
    ensures At(s', Slot(2, 5))[0] == 7 && Slot(2, 5) in EagerRun(View(s), steps) && EagerRun(View(s), steps)[Slot(2, 5)][0] == 0
  {
    hide Runs, EagerRun, View;
    s := State(map[Slot(1, 5) := Private(0)], map[1 := Proc(true, 0, None, NoFault)], [ZeroPage()]);
    var s1 := Next(s, Exofork(1, 2));
    var s2 := Next(s1, DupChild(1, 5, 2));
    var s3 := Next(s2, Write(1, 5, 0, 7));
    s' := Next(s3, DupParent(1));
    assert s'.ptes[Slot(2, 5)].frame == 0 && s'.mem == [Poke(ZeroPage(), 0, 7)];
    var m := map[Slot(1, 5) := ZeroPage()];
    ViewOne(s, m);
    WindowRuns(s, s1, s2, s3, s', m);
    steps := [Exofork(1, 2)] + ([DupChild(1, 5, 2)] + ([Write(1, 5, 0, 7)] + ([DupParent(1)] + [])));
  }

  lemma ViewOne(s: State, m: map<Slot, Contents>)
    requires s.ptes == map[Slot(1, 5) := Private(0)] && s.mem == [ZeroPage()] && m == map[Slot(1, 5) := ZeroPage()]
    ensures View(s) == m
  {}

  lemma WindowRuns(s: State, s1: State, s2: State, s3: State, s4: State, m: map<Slot, Contents>)
    requires Enabled(s, Exofork(1, 2)) && s1 == Next(s, Exofork(1, 2)) && Enabled(s1, DupChild(1, 5, 2)) && s2 == Next(s1, DupChild(1, 5, 2))
    requires Enabled(s2, Write(1, 5, 0, 7)) && s3 == Next(s2, Write(1, 5, 0, 7)) && Enabled(s3, DupParent(1)) && s4 == Next(s3, DupParent(1))
    requires m == map[Slot(1, 5) := ZeroPage()]
    ensures var steps := [Exofork(1, 2)] + ([DupChild(1, 5, 2)] + ([Write(1, 5, 0, 7)] + ([DupParent(1)] + [])));
      Runs(s, steps, s4) && Slot(2, 5) in EagerRun(m, steps) && EagerRun(m, steps)[Slot(2, 5)] == ZeroPage()
  {
    hide Enabled, Next, Eager, ZeroPage;
    var m1 := Eager(m, Exofork(1, 2));
    var m2 := Eager(m1, DupChild(1, 5, 2));
    var m3 := Eager(m2, Write(1, 5, 0, 7));
    var m4 := Eager(m3, DupParent(1));
    WindowEager(m);
    assert Runs(s4, [], s4) && EagerRun(m4, []) == m4;
    hide Runs, EagerRun;
    FirstStep(s3, DupParent(1), [], s4, m3);
    FirstStep(s2, Write(1, 5, 0, 7), [DupParent(1)] + [], s4, m2);
    FirstStep(s1, DupChild(1, 5, 2), [Write(1, 5, 0, 7)] + ([DupParent(1)] + []), s4, m1);
    FirstStep(s, Exofork(1, 2), [DupChild(1, 5, 2)] + ([Write(1, 5, 0, 7)] + ([DupParent(1)] + [])), s4, m);
  }

  lemma WindowEager(m: map<Slot, Contents>)
    requires m == map[Slot(1, 5) := ZeroPage()]
    ensures var m' := Eager(Eager(Eager(Eager(m, Exofork(1, 2)), DupChild(1, 5, 2)), Write(1, 5, 0, 7)), DupParent(1));
      Slot(2, 5) in m' && m'[Slot(2, 5)] == ZeroPage()
  {}

  // ---------------------------------------------------------------------------------------------
  // The library calls, run without interruption

  /** The parent's entry after `duppage`. */
  function Kept(p: Pte): Pte {
    if p.w || p.cow then Marked(p.frame, p.io) else p
  }

  /** The pages `fork` duplicates. */
  predicate IsForked(ptes: map<Slot, Pte>, e: nat, v: nat) {
    v < UXSTACK_PAGE && Slot(e, v) in ptes && ptes[Slot(e, v)].user
  }

  /** What becomes of an entry `p` that is shared: `mine` in the parent and `yours` in the child. Where
      the parent could write, or will be able to, both are copy-on-write and neither is writable. */
  predicate CowShared(p: Pte, mine: Pte, yours: Pte) {
    && yours.frame == mine.frame == p.frame && yours.io == mine.io == p.io
    && yours.user && mine.user && !yours.w && !mine.w
    && (yours.cow <==> p.w || p.cow) && (mine.cow <==> p.w || p.cow)
  }

  /** The pages an environment can write, or will be able to after a fault. */
  function OwnPages(ptes: map<Slot, Pte>, e: nat): set<nat> {
    set a | a in ptes && a.env == e && (ptes[a].w || ptes[a].cow) :: a.vpn
  }

  predicate Forked(s: State, e: nat, v: nat) {
    IsForked(s.ptes, e, v)
  }

  /** `ptes` is `ptes0` with the pages below `n` of `e` shared with `c`. */
  ghost predicate SharedUpTo(ptes0: map<Slot, Pte>, ptes: map<Slot, Pte>, e: nat, c: nat, n: nat) {
    && (forall a :: a in ptes <==> a in ptes0 || (a.env == c && a.vpn < n && IsForked(ptes0, e, a.vpn)))
    && (forall a :: a in ptes0 ==> ptes[a] == if a.env == e && a.vpn < n && IsForked(ptes0, e, a.vpn) then Kept(ptes0[a]) else ptes0[a])
    && (forall v: nat :: v < n && IsForked(ptes0, e, v) ==> ptes[Slot(c, v)] == Duped(ptes0[Slot(e, v)]))
  }

  ghost predicate ForkedUpTo(s0: State, s: State, e: nat, c: nat, n: nat) {
    s.mem == s0.mem && s.procs == s0.procs && SharedUpTo(s0.ptes, s.ptes, e, c, n)
  }

  /** The entries after `duppage`. */
  function Shared(ptes: map<Slot, Pte>, e: nat, v: nat, c: nat): map<Slot, Pte>
    requires Slot(e, v) in ptes
  {
    ptes[Slot(c, v) := Duped(ptes[Slot(e, v)])][Slot(e, v) := Kept(ptes[Slot(e, v)])]
  }

  function Duplicated(s: State, e: nat, v: nat, c: nat): State
    requires Slot(e, v) in s.ptes
  {
    State(Shared(s.ptes, e, v, c), s.procs, s.mem)
  }

  lemma ForkStart(s: State, e: nat, c: nat)
    requires Inv(s) && Enabled(s, Exofork(e, c))
    ensures var s0 := Next(s, Exofork(e, c));
      && ForkedUpTo(s0, s0, e, c, 0) && Active(s0, e) && s0.procs[e].dup.None? && Building(s0, e, c) && Slot(e, PFTEMP_PAGE) !in s0.ptes
      && s0.ptes == s.ptes && s0.mem == s.mem && (forall a :: a in s0.ptes ==> a.env != c) && SlotsOk(s)
  {
    assert ProcOk(s, e);
  }

  /** One more page: skipped when absent, not the user's, or the exception stack. */
  lemma SharedStep(ptes0: map<Slot, Pte>, ptes: map<Slot, Pte>, e: nat, c: nat, n: nat)
    requires SharedUpTo(ptes0, ptes, e, c, n) && n < PAGE_COUNT && e != c && forall a :: a in ptes0 ==> a.env != c
    ensures IsForked(ptes0, e, n) <==> n != UXSTACK_PAGE && Slot(e, n) in ptes && ptes[Slot(e, n)].user
    ensures Slot(e, n) in ptes <==> Slot(e, n) in ptes0
    ensures Slot(e, n) in ptes ==> ptes[Slot(e, n)] == ptes0[Slot(e, n)]
    ensures !IsForked(ptes0, e, n) ==> SharedUpTo(ptes0, ptes, e, c, n + 1)
    ensures IsForked(ptes0, e, n) ==> SharedUpTo(ptes0, Shared(ptes, e, n, c), e, c, n + 1)
  {
    if IsForked(ptes0, e, n) {
      SharedMore(ptes0, ptes, e, c, n);
    }
  }

  lemma SharedMore(ptes0: map<Slot, Pte>, ptes: map<Slot, Pte>, e: nat, c: nat, n: nat)
    requires SharedUpTo(ptes0, ptes, e, c, n) && n < PAGE_COUNT && e != c && (forall a :: a in ptes0 ==> a.env != c)
    requires IsForked(ptes0, e, n) && Slot(e, n) in ptes && ptes[Slot(e, n)] == ptes0[Slot(e, n)]
    ensures SharedUpTo(ptes0, Shared(ptes, e, n, c), e, c, n + 1)
  {
    hide Kept, Duped;
    var ptes', x := Shared(ptes, e, n, c), ptes0[Slot(e, n)];
    assert ptes' == ptes[Slot(c, n) := Duped(x)][Slot(e, n) := Kept(x)];
    hide Shared;
    forall a ensures a in ptes' <==> a in ptes0 || (a.env == c && a.vpn < n + 1 && IsForked(ptes0, e, a.vpn)) {
      if a.vpn == n && a.env == c { assert a == Slot(c, n); }
    }
    hide IsForked;
    forall a | a in ptes0 ensures ptes'[a] == if a.env == e && a.vpn < n + 1 && IsForked(ptes0, e, a.vpn) then Kept(ptes0[a]) else ptes0[a] {
      if a.vpn == n && a.env == e { assert a == Slot(e, n); }
    }
    forall v: nat | v < n + 1 && IsForked(ptes0, e, v) ensures ptes'[Slot(c, v)] == Duped(ptes0[Slot(e, v)]) {}
  }

  lemma ForkStep(s0: State, s: State, e: nat, c: nat, n: nat)
    requires ForkedUpTo(s0, s, e, c, n) && n < PAGE_COUNT && Active(s0, e) && s0.procs[e].dup.None? && Building(s0, e, c)
    requires forall a :: a in s0.ptes ==> a.env != c
    ensures Forked(s0, e, n) <==> n != UXSTACK_PAGE && Slot(e, n) in s.ptes && s.ptes[Slot(e, n)].user
    ensures !Forked(s0, e, n) ==> ForkedUpTo(s0, s, e, c, n + 1)
    ensures Forked(s0, e, n) ==> Enabled(s, DupChild(e, n, c)) && ForkedUpTo(s0, Duplicated(s, e, n, c), e, c, n + 1)
  {
    SharedStep(s0.ptes, s.ptes, e, c, n);
    hide SharedUpTo;
  }

  /** The child sees the parent's user pages and a zeroed exception stack, nobody else sees a change,
      and no page the two share is writable. */
  ghost predicate ForkResult(s: State, s': State, e: nat, c: nat, stack: nat) {
    && c in s'.procs && s'.procs[c].running
    && (forall v: nat :: Slot(c, v) in s'.ptes <==> v == UXSTACK_PAGE || Forked(s, e, v))
    && (forall v: nat :: Forked(s, e, v) ==>
         At(s', Slot(c, v)) == At(s, Slot(e, v)) && Slot(e, v) in s'.ptes
         && CowShared(s.ptes[Slot(e, v)], s'.ptes[Slot(e, v)], s'.ptes[Slot(c, v)]))
    && s'.ptes[Slot(c, UXSTACK_PAGE)] == Pte(stack, true, true, false, false)
    && (forall k: nat :: k < PGSIZE ==> At(s', Slot(c, UXSTACK_PAGE))[k] == 0)
    && (forall a: Slot :: a.env != c ==> (a in s'.ptes <==> a in s.ptes) && (a in s'.ptes ==> At(s', a) == At(s, a)))
    && (forall a: Slot :: a in s.ptes && a.env != c && !(a.env == e && Forked(s, e, a.vpn)) ==> s'.ptes[a] == s.ptes[a])
  }

  /** What the loop has built. */
  ghost predicate LoopResult(s: State, s1: State, e: nat, c: nat) {
    && (forall v: nat :: Slot(c, v) in s1.ptes <==> Forked(s, e, v))
    && (forall v: nat :: Forked(s, e, v) ==>
         At(s1, Slot(c, v)) == At(s, Slot(e, v)) && Slot(e, v) in s1.ptes
         && CowShared(s.ptes[Slot(e, v)], s1.ptes[Slot(e, v)], s1.ptes[Slot(c, v)]))
    && (forall a: Slot :: a.env != c ==> (a in s1.ptes <==> a in s.ptes) && (a in s1.ptes ==> At(s1, a) == At(s, a)))
    && (forall a: Slot :: a in s.ptes && a.env != c && !(a.env == e && Forked(s, e, a.vpn)) ==> s1.ptes[a] == s.ptes[a])
  }

  lemma LoopEnd(s: State, s0: State, s1: State, e: nat, c: nat, stack: nat)
    requires SlotsOk(s) && Fresh(s, stack) && s0.ptes == s.ptes && s0.mem == s.mem && (forall a :: a in s0.ptes ==> a.env != c)
    requires ForkedUpTo(s0, s1, e, c, PAGE_COUNT) && e != c
    ensures LoopResult(s, s1, e, c) && Fresh(s1, stack)
  {
    forall v: nat | Forked(s, e, v)
      ensures Slot(c, v) in s1.ptes && At(s1, Slot(c, v)) == At(s, Slot(e, v)) && Slot(e, v) in s1.ptes
      ensures CowShared(s.ptes[Slot(e, v)], s1.ptes[Slot(e, v)], s1.ptes[Slot(c, v)])
    {
      assert Forked(s0, e, v) && s1.ptes[Slot(c, v)] == Duped(s0.ptes[Slot(e, v)]);
      assert Slot(e, v) in s0.ptes;
    }
    forall a | a in s1.ptes ensures s1.ptes[a].frame != stack {
      if a !in s0.ptes {
        assert s1.ptes[a] == Duped(s0.ptes[Slot(e, a.vpn)]);
        assert Slot(e, a.vpn) in s.ptes;
      }
    }
  }

  lemma LoopProcs(s0: State, s1: State, e: nat, c: nat)
    requires ForkedUpTo(s0, s1, e, c, PAGE_COUNT)
    ensures s1.procs == s0.procs
  {}

  lemma StackAdded(s: State, s1: State, s3: State, e: nat, c: nat, stack: nat)
    requires LoopResult(s, s1, e, c) && Fresh(s1, stack) && c in s3.procs && s3.procs[c].running && c != e
    requires s3.ptes == s1.ptes[Slot(c, UXSTACK_PAGE) := Private(stack)] && s3.mem == Zeroed(s1, stack).mem
    ensures ForkResult(s, s3, e, c, stack)
  {
    FreshUnseen(s1, stack, ZeroPage());
    forall a | a in s1.ptes && a != Slot(c, UXSTACK_PAGE) ensures a in s3.ptes && At(s3, a) == At(s1, a) && s3.ptes[a] == s1.ptes[a] {}
    hide At;
    assert At(s3, Slot(c, UXSTACK_PAGE)) == ZeroPage() by { StackZero(s3, c, stack); }
  }

  /** Over fork the parent keeps the pages it can write or will be able to, and the child has the same
      ones below the exception stack. */
  lemma OwnPagesKept(s: State, s': State, e: nat, c: nat, stack: nat)
    requires ForkResult(s, s', e, c, stack) && e != c
    ensures OwnPages(s'.ptes, e) == OwnPages(s.ptes, e)
    ensures OwnPages(s'.ptes, c) == (set v | v in OwnPages(s.ptes, e) && Forked(s, e, v)) + {UXSTACK_PAGE}
  {
    hide At;
    forall v: nat ensures v in OwnPages(s'.ptes, e) <==> v in OwnPages(s.ptes, e) {
      OwnPageIs(s.ptes, e, v);
      OwnPageIs(s'.ptes, e, v);
    }
    forall v: nat ensures v in OwnPages(s'.ptes, c) <==> v == UXSTACK_PAGE || (v in OwnPages(s.ptes, e) && Forked(s, e, v)) {
      OwnPageIs(s.ptes, e, v);
      OwnPageIs(s'.ptes, c, v);
    }
  }

  lemma OwnPageIs(ptes: map<Slot, Pte>, e: nat, v: nat)
    ensures v in OwnPages(ptes, e) <==> Slot(e, v) in ptes && (ptes[Slot(e, v)].w || ptes[Slot(e, v)].cow)
  {
    if Slot(e, v) in ptes && (ptes[Slot(e, v)].w || ptes[Slot(e, v)].cow) {
      var a := Slot(e, v);
      assert a in ptes && a.env == e && a.vpn == v;
    }
  }

  /** The rest of `fork`: the exception stack, and the child is let go. */
  lemma ForkEnd(s: State, s1: State, e: nat, c: nat, stack: nat)
    requires LoopResult(s, s1, e, c) && Fresh(s1, stack) && Active(s1, e) && s1.procs[e].dup.None? && Building(s1, e, c)
    ensures Enabled(s1, ExceptionStack(e, c, stack))
    ensures var s2 := Next(s1, ExceptionStack(e, c, stack)); Enabled(s2, SetRunnable(e, c)) && ForkResult(s, Next(s2, SetRunnable(e, c)), e, c, stack)
  {
    var s3 := Next(Next(s1, ExceptionStack(e, c, stack)), SetRunnable(e, c));
    assert s3.ptes == s1.ptes[Slot(c, UXSTACK_PAGE) := Private(stack)] && s3.mem == Zeroed(s1, stack).mem;
    hide LoopResult, ForkResult, Fresh;
    StackAdded(s, s1, s3, e, c, stack);
  }

  lemma StackZero(s: State, c: nat, stack: nat)
    requires Slot(c, UXSTACK_PAGE) in s.ptes && s.ptes[Slot(c, UXSTACK_PAGE)].frame == stack < |s.mem| && s.mem[stack] == ZeroPage()
    ensures At(s, Slot(c, UXSTACK_PAGE)) == ZeroPage()
  {}

  /** A byte that a call writes to the caller's stack. */
  datatype Push = Push(offset: nat, value: nat)

  predicate OnPage(pushes: seq<Push>) {
    forall i :: 0 <= i < |pushes| ==> pushes[i].offset < PGSIZE
  }

  function Pushed(x: Contents, pushes: seq<Push>): Contents
    requires OnPage(pushes)
  {
    if pushes == [] then x
    else Poke(Pushed(x, pushes[..|pushes| - 1]), pushes[|pushes| - 1].offset, pushes[|pushes| - 1].value)
  }

  /** Environment `e` has made these writes to its page `v`. */
  function AfterPushes(s: State, e: nat, v: nat, pushes: seq<Push>): State
    requires OnPage(pushes)
  {
    if Slot(e, v) in s.ptes then Fill(s, s.ptes[Slot(e, v)].frame, Pushed(At(s, Slot(e, v)), pushes)) else s
  }

  lemma PushesKeep(s: State, e: nat, v: nat, pushes: seq<Push>)
    requires OnPage(pushes)
    ensures var s' := AfterPushes(s, e, v, pushes); s'.ptes == s.ptes && s'.procs == s.procs && |s'.mem| == |s.mem|
    ensures forall f :: Fresh(s, f) ==> Fresh(AfterPushes(s, e, v, pushes), f)
    ensures SlotsOk(s) ==> SlotsOk(AfterPushes(s, e, v, pushes))
  {}

  lemma NoPushes(s: State, e: nat, v: nat)
    ensures AfterPushes(s, e, v, []) == s
  {
    if Slot(e, v) in s.ptes && s.ptes[Slot(e, v)].frame < |s.mem| {
      assert s.mem[s.ptes[Slot(e, v)].frame := s.mem[s.ptes[Slot(e, v)].frame]] == s.mem;
    }
  }

  lemma OnePush(s: State, e: nat, v: nat, pushes: seq<Push>, i: nat)
    requires OnPage(pushes) && i < |pushes| && Slot(e, v) in s.ptes && s.ptes[Slot(e, v)].frame < |s.mem|
    ensures var f, m := s.ptes[Slot(e, v)].frame, AfterPushes(s, e, v, pushes[..i]).mem;
      |m| == |s.mem| && AfterPushes(s, e, v, pushes[..i + 1]).mem == m[f := Poke(m[f], pushes[i].offset, pushes[i].value)]
  {
    assert pushes[..i + 1][..i] == pushes[..i];
  }

  /** Only the page's place and the memory matter. */
  lemma SamePushes(s: State, s': State, e: nat, v: nat, pushes: seq<Push>)
    requires OnPage(pushes) && s'.mem == s.mem && (Slot(e, v) in s'.ptes <==> Slot(e, v) in s.ptes)
    requires Slot(e, v) in s.ptes ==> s'.ptes[Slot(e, v)].frame == s.ptes[Slot(e, v)].frame
    ensures AfterPushes(s', e, v, pushes).mem == AfterPushes(s, e, v, pushes).mem
  {}

  lemma PagesOf(s: State, e: nat, v: nat)
    requires Inv(s) && Active(s, e) && Slot(e, v) in s.ptes
    ensures v != PFTEMP_PAGE && s.ptes[Slot(e, v)].frame < |s.mem|
  {
    assert ProcOk(s, e);
  }

  /** What the parent's writes show: its own page, and nobody else's. */
  lemma PushesSeen(s: State, e: nat, v: nat, pushes: seq<Push>)
    requires Inv(s) && Active(s, e) && s.procs[e].dup.None? && OnPage(pushes) && Slot(e, v) in s.ptes && s.ptes[Slot(e, v)].w
    ensures View(AfterPushes(s, e, v, pushes)) == View(s)[Slot(e, v) := Pushed(At(s, Slot(e, v)), pushes)]
  {
    PagesOf(s, e, v);
    var a, s' := Slot(e, v), AfterPushes(s, e, v, pushes);
    forall b | b in s.ptes && b != a && s.ptes[b].frame == s.ptes[a].frame ensures b.vpn == PFTEMP_PAGE {
      assert Pending(s, a, b) || Settling(s, a, b);
    }
    hide Inv, Pushed;
  }

  lemma SameEntry(s0: State, s: State, e: nat, c: nat, n: nat)
    requires ForkedUpTo(s0, s, e, c, n) && e != c
    ensures Slot(e, n) in s.ptes <==> Slot(e, n) in s0.ptes
    ensures Slot(e, n) in s.ptes ==> s.ptes[Slot(e, n)] == s0.ptes[Slot(e, n)]
  {}

  /** The parent's writes and the sharing of the other pages do not meet. */
  lemma PushThenFork(s0: State, s: State, e: nat, c: nat, n: nat, pushes: seq<Push>)
    requires ForkedUpTo(s0, s, e, c, n) && e != c && n < PAGE_COUNT && OnPage(pushes) && Active(s0, e) && s0.procs[e].dup.None? && Building(s0, e, c)
    requires Forked(s0, e, n) && forall a :: a in s0.ptes ==> a.env != c
    ensures Slot(e, n) in AfterPushes(s, e, n, pushes).ptes
    ensures ForkedUpTo(AfterPushes(s0, e, n, pushes), Duplicated(AfterPushes(s, e, n, pushes), e, n, c), e, c, n + 1)
  {
    SameEntry(s0, s, e, c, n);
    SamePushes(s0, s, e, n, pushes);
    PushesKeep(s0, e, n, pushes);
    PushesKeep(s, e, n, pushes);
    hide SharedUpTo, AfterPushes;
    SharedStep(s0.ptes, s.ptes, e, c, n);
  }

  lemma SameForked(s: State, s': State, e: nat, v: nat)
    requires s'.ptes == s.ptes
    ensures Forked(s', e, v) <==> Forked(s, e, v)
    ensures Forked(s, e, v) ==> v < PAGE_COUNT
  {}

  lemma StaysForked(s0: State, pushed: State, s: State, e: nat, c: nat, n: nat, sp: nat, pushes: seq<Push>)
    requires OnPage(pushes) && pushed == AfterPushes(s0, e, sp, pushes) && (pushes != [] ==> Forked(s0, e, sp))
    requires ForkedUpTo(if n <= sp then s0 else pushed, s, e, c, n + 1) && (n == sp ==> !Forked(s0, e, n))
    ensures ForkedUpTo(if n + 1 <= sp then s0 else pushed, s, e, c, n + 1)
  {
    NoPushes(s0, e, sp);
  }

  class Machine {
    var s: State

    /** Both halves of `duppage`. Making the second call, the parent writes to the page when that is its
        own stack. */
    method Duppage(e: nat, v: nat, c: nat, pushes: seq<Push>)
      requires Inv(s) && Enabled(s, DupChild(e, v, c)) && OnPage(pushes) && (pushes != [] ==> s.ptes[Slot(e, v)].w)
      modifies this
      ensures Inv(s)
      ensures s == Duplicated(AfterPushes(old(s), e, v, pushes), e, v, c)
      ensures CowShared(old(s).ptes[Slot(e, v)], s.ptes[Slot(e, v)], s.ptes[Slot(c, v)])
      ensures OwnPages(s.ptes, e) == OwnPages(old(s).ptes, e)
    {
      hide Inv, AfterPushes, OwnPages;
      ghost var before := s;
      PagesOf(s, e, v);
      StepInv(s, DupChild(e, v, c));
      s := Next(s, DupChild(e, v, c));
      assert c != e;
      NoPushes(before, e, v);
      if s.procs[e].dup.Some? {
        ghost var shared := s;
        for i := 0 to |pushes|
          invariant Inv(s) && s.ptes == shared.ptes && s.procs == shared.procs && s.mem == AfterPushes(before, e, v, pushes[..i]).mem
        {
          OnePush(before, e, v, pushes, i);
          ghost var t := Write(e, v, pushes[i].offset, pushes[i].value);
          StepInv(s, t);
          s := Next(s, Write(e, v, pushes[i].offset, pushes[i].value));
        }
        assert pushes[..|pushes|] == pushes;
        StepInv(s, DupParent(e));
        s := Next(s, DupParent(e));
      }
      PushesKeep(before, e, v, pushes);
      assert s.procs == old(s.procs);
      SharedOwnPages(before.ptes, e, v, c);
    }

    /** Gives `c` every user page of `e`, copy-on-write where `e` could write it, a new exception
        stack, and lets it run. The result is that of a fork after `pushes`, the bytes the parent
        writes to its stack page `sp` while it makes the second call for that very page. */
    method Fork(e: nat, c: nat, stack: nat, sp: nat, pushes: seq<Push>)
      requires Inv(s) && Enabled(s, Exofork(e, c)) && Fresh(s, stack)
      requires OnPage(pushes) && (pushes != [] ==> Forked(s, e, sp) && s.ptes[Slot(e, sp)].w)
      modifies this
      ensures Inv(s) && ForkResult(AfterPushes(old(s), e, sp, pushes), s, e, c, stack)
      ensures OwnPages(s.ptes, e) == OwnPages(old(s).ptes, e)
      ensures OwnPages(s.ptes, c) == (set v | v in OwnPages(old(s).ptes, e) && Forked(old(s), e, v)) + {UXSTACK_PAGE}
    {
      hide OwnPages, Inv, ForkedUpTo, Enabled, Next, Forked, ForkResult, LoopResult, Duplicated, AfterPushes, Fresh;
      StepInv(s, Exofork(e, c));
      ForkStart(s, e, c);
      PushesKeep(s, e, sp, pushes);
      s := Next(s, Exofork(e, c));
      ghost var s0, pushed := s, AfterPushes(s, e, sp, pushes);
      SamePushes(old(s), s, e, sp, pushes);
      SameForked(old(s), s, e, sp);
      PushesKeep(s, e, sp, pushes);
      NoPushes(s, e, sp);
      for pnum := 0 to PAGE_COUNT
        invariant Inv(s) && ForkedUpTo(if pnum <= sp then s0 else pushed, s, e, c, pnum)
      {
        ghost var base := if pnum <= sp then s0 else pushed;
        ForkStep(base, s, e, c, pnum);
        if pnum == UXSTACK_PAGE || Slot(e, pnum) !in s.ptes || !s.ptes[Slot(e, pnum)].user {
          StaysForked(s0, pushed, s, e, c, pnum, sp, pushes);
          continue;
        }
        SameEntry(base, s, e, c, pnum);
        NoPushes(s, e, pnum);
        PushThenFork(base, s, e, c, pnum, pushes);
        Duppage(e, pnum, c, if pnum == sp then pushes else []);
      }
      LoopEnd(AfterPushes(old(s), e, sp, pushes), pushed, s, e, c, stack);
      LoopProcs(pushed, s, e, c);
      ForkEnd(AfterPushes(old(s), e, sp, pushes), s, e, c, stack);
      StepInv(s, ExceptionStack(e, c, stack));
      s := Next(s, ExceptionStack(e, c, stack));
      StepInv(s, SetRunnable(e, c));
      s := Next(s, SetRunnable(e, c));
      OwnPagesKept(AfterPushes(old(s), e, sp, pushes), s, e, c, stack);
      SameForkedPages(AfterPushes(old(s), e, sp, pushes), old(s), e);
    }

    /** The page fault handler: the faulting page becomes private and writable, with the same contents. */
    method Pgfault(e: nat, v: nat, page: nat)
      requires Inv(s) && Enabled(s, FaultAlloc(e, v, page))
      modifies this
      ensures Inv(s) && View(s) == View(old(s)) && s.procs == old(s.procs)
      ensures s.ptes == old(s.ptes)[Slot(e, v) := Pte(page, true, true, false, false)]
    {
      hide Inv, View;
      NoTemp(s, e);
      StepInv(s, FaultAlloc(e, v, page));
      FaultRefines(s, FaultAlloc(e, v, page));
      s := Next(s, FaultAlloc(e, v, page));
      BothMapped(s, e);
      StepInv(s, FaultCopy(e));
      FaultRefines(s, FaultCopy(e));
      s := Next(s, FaultCopy(e));
      StepInv(s, FaultMap(e));
      FaultRefines(s, FaultMap(e));
      s := Next(s, FaultMap(e));
      StepInv(s, FaultUnmap(e));
      FaultRefines(s, FaultUnmap(e));
      s := Next(s, FaultUnmap(e));
      assert s.procs == old(s.procs);
    }
  }

  lemma SharedOwnPages(ptes: map<Slot, Pte>, e: nat, v: nat, c: nat)
    requires Slot(e, v) in ptes && c != e
    ensures OwnPages(Shared(ptes, e, v, c), e) == OwnPages(ptes, e)
  {
    forall x: nat ensures x in OwnPages(Shared(ptes, e, v, c), e) <==> x in OwnPages(ptes, e) {
      OwnPageIs(ptes, e, x);
      OwnPageIs(Shared(ptes, e, v, c), e, x);
    }
  }

  /** The entries once every page is shared and the child has its stack. */
  lemma AllShared(ptes0: map<Slot, Pte>, shared: map<Slot, Pte>, ptes: map<Slot, Pte>, e: nat, c: nat, p: nat)
    requires SharedUpTo(ptes0, shared, e, c, PAGE_COUNT) && e != c && forall a :: a in ptes0 ==> a.env != c
    requires ptes == shared[Slot(c, UXSTACK_PAGE) := Pte(p, true, true, false, false)]
    ensures forall v: nat :: IsForked(ptes0, e, v) ==>
      Slot(e, v) in ptes && Slot(c, v) in ptes && CowShared(ptes0[Slot(e, v)], ptes[Slot(e, v)], ptes[Slot(c, v)])
    ensures OwnPages(ptes, e) == OwnPages(ptes0, e)
    ensures OwnPages(ptes, c) == (set v | v in OwnPages(ptes0, e) && IsForked(ptes0, e, v)) + {UXSTACK_PAGE}
  {
    forall v: nat | IsForked(ptes0, e, v)
      ensures Slot(e, v) in ptes && Slot(c, v) in ptes && CowShared(ptes0[Slot(e, v)], ptes[Slot(e, v)], ptes[Slot(c, v)])
    {
      assert Slot(e, v) in ptes0;
    }
    forall v: nat ensures v in OwnPages(ptes, e) <==> v in OwnPages(ptes0, e) {
      OwnPageIs(ptes0, e, v);
      OwnPageIs(ptes, e, v);
    }
    forall v: nat ensures v in OwnPages(ptes, c) <==> v == UXSTACK_PAGE || (v in OwnPages(ptes0, e) && IsForked(ptes0, e, v)) {
      OwnPageIs(ptes0, e, v);
      OwnPageIs(ptes, c, v);
    }
  }

  lemma SameForkedPages(s: State, s': State, e: nat)
    requires s'.ptes == s.ptes
    ensures forall v :: Forked(s', e, v) <==> Forked(s, e, v)
  {}

  lemma NoTemp(s: State, e: nat)
    requires Inv(s) && Active(s, e)
    ensures Slot(e, PFTEMP_PAGE) !in s.ptes
  {
    assert ProcOk(s, e);
  }

  lemma BothMapped(s: State, e: nat)
    requires Inv(s) && e in s.procs && !s.procs[e].fault.NoFault?
    ensures Slot(e, PFTEMP_PAGE) in s.ptes && Slot(e, s.procs[e].fault.vpn) in s.ptes
    ensures s.ptes[Slot(e, PFTEMP_PAGE)].frame < |s.mem| && s.ptes[Slot(e, s.procs[e].fault.vpn)].frame < |s.mem|
  {
    assert ProcOk(s, e);
  }
}
