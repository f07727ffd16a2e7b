/** The proportional-share scheduler: the draw, and the accounting of tickets on one processor. */
module Lottery {
  import opened Arithmetic
  import Kernel

  const LCG_A: nat := 0x1_0000_0000
  const LCG_C: nat := 1013904223
  const LCG_M: nat := 1664525
  const UINT: nat := 0x1_0000_0000
  const ULONG: nat := 0x1_0000_0000_0000_0000
  const FULL := 100
  const STEP := 10
  const INTS2BOOST := 10
  const E_BAD_ENV := 2
  const E_NO_FREE_ENV := 5
  const NULL := -1

  datatype Status = Free | Runnable | Running

  datatype Env = Env(status: Status, tickets: int, id: nat, parent: nat)

  // ---------------------------------------------------------------------------------------------
  // The draw

  /** `unsigned` arithmetic: the generator's product and the scaling both wrap. */
  function NextRandom(seed: nat): nat {
    (LCG_A * seed + LCG_C) % ULONG % LCG_M
  }

  function Scaled(random: nat, total: nat): nat {
    random * total % UINT / LCG_M
  }

  lemma RandomInRange(seed: nat)
    ensures NextRandom(seed) < LCG_M
  {}

  /** The generator never wraps, and is the congruence its constants describe. */
  lemma NextRandomIs(seed: nat)
    requires seed < 1664525
    ensures NextRandom(seed) < 1664525 && NextRandom(seed) == (0x1_0000_0000 * seed + 1013904223) % 1664525
  {}

  lemma DivMod(x: int, m: nat)
    requires m > 0
    ensures x == m * (x / m) + x % m
  {}

  /** The multiple of the modulus that a draw takes away. */
  lemma Taken(seed: nat) returns (k: int)
    requires seed < 1664525
    ensures NextRandom(seed) < 1664525 && 0x1_0000_0000 * seed + 1013904223 - NextRandom(seed) == 1664525 * k
  {
    NextRandomIs(seed);
    hide NextRandom;
    k := (0x1_0000_0000 * seed + 1013904223) / 1664525;
    DivMod(0x1_0000_0000 * seed + 1013904223, 1664525);
  }

  /** 7306 is the inverse of the multiplier, and 208498 the remainder of the increment. */
  function PreviousRandom(r: nat): nat {
    7306 * (r + 1664525 - 208498) % 1664525
  }

  lemma SameState(a: int, b: int, k: int)
    requires 0 <= a < 1664525 && 0 <= b < 1664525 && a - b == 1664525 * k
    ensures a == b
  {}

  /** What the inverse undoes: 7306 * 2^32 is 1 + 1664525 * 18851643. */
  lemma Undone(seed: int, r: int, q: int, k: int, m: int)
    requires 0x1_0000_0000 * seed + 1013904223 - r == 1664525 * k && 7306 * (r + 1664525 - 208498) - q == 1664525 * m
    ensures q - seed == 1664525 * (18851643 * seed + 7306 * 609 - 7306 * k + 7306 - m)
  {}

  lemma Redone(seed: int, p: int, w: int, n: int, m: int)
    requires 7306 * (seed + 1664525 - 208498) - p == 1664525 * m && 0x1_0000_0000 * p + 1013904223 - w == 1664525 * n
    ensures w - seed == 1664525 * (1 + 18851643 * (seed + 1664525 - 208498) - 0x1_0000_0000 * m + 609 - n)
  {}

  lemma PreviousIs(r: nat) returns (m: int)
    requires r < 1664525
    ensures PreviousRandom(r) < 1664525 && 7306 * (r + 1664525 - 208498) - PreviousRandom(r) == 1664525 * m
  {
    m := 7306 * (r + 1664525 - 208498) / 1664525;
    DivMod(7306 * (r + 1664525 - 208498), 1664525);
  }

  /** A draw forgets nothing: it permutes the seeds below the modulus. */
  lemma DrawPermutes(seed: nat)
    requires seed < 1664525
    ensures PreviousRandom(seed) < 1664525 && NextRandom(PreviousRandom(seed)) == seed
    ensures NextRandom(seed) < 1664525 && PreviousRandom(NextRandom(seed)) == seed
  {
    hide NextRandom, PreviousRandom;
    var r, p := NextRandom(seed), PreviousRandom(seed);
    var k := Taken(seed);
    var m := PreviousIs(r);
    Undone(seed, r, PreviousRandom(r), k, m);
    SameState(PreviousRandom(r), seed, 18851643 * seed + 7306 * 609 - 7306 * k + 7306 - m);
    var i := PreviousIs(seed);
    var n := Taken(p);
    var w := NextRandom(p);
    Redone(seed, p, w, n, i);
    SameState(w, seed, 1 + 18851643 * (seed + 1664525 - 208498) - 0x1_0000_0000 * i + 609 - n);
  }

  /** No two seeds have the same successor. */
  lemma DrawIsInjective(a: nat, b: nat)
    requires a < 1664525 && b < 1664525 && NextRandom(a) == NextRandom(b)
    ensures a == b
  {
    hide NextRandom, PreviousRandom;
    DrawPermutes(a);
    DrawPermutes(b);
  }

  /** The first draw after boot, with the tickets of three environments. */
  lemma FirstDraw()
    ensures NextRandom(1234) == 767137 && Scaled(NextRandom(1234), 300) == 138
  {}

  /** The state after `k` draws. */
  function Drawn(seed: nat, k: nat): nat {
    if k == 0 then seed else NextRandom(Drawn(seed, k - 1))
  }

  lemma SameRest(a: nat, b: nat, m: nat, k: int)
    requires 0 < m && a - b == m * k
    ensures a % m == b % m
  {
    DivMod(a, m);
    DivMod(b, m);
    var d := a / m - b / m - k;
    assert m * d == b % m - a % m;
    if d != 0 { MultipleNotSmall(d, m); }
  }

  /** Modulo 5 every draw adds 3. */
  lemma OneDraw(seed: nat) returns (k: int)
    requires seed < 1664525
    ensures NextRandom(seed) % 5 == (seed + 3) % 5 && NextRandom(seed) == 21 * seed + 23 + 25 * k
  {
    hide NextRandom;
    var n := Taken(seed);
    k := 171798691 * seed + 40556168 - 66581 * n;
    SameRest(NextRandom(seed), seed + 3, 5, 858993459 * seed + 202780844 - 332905 * n);
  }

  /** No seed is left as it is. */
  lemma NeverStays(seed: nat)
    ensures NextRandom(seed) != seed
  {
    RandomInRange(seed);
    hide NextRandom;
    if seed < 1664525 { var k := OneDraw(seed); }
  }

  lemma {:induction false} DrawnBy(seed: nat, k: nat)
    requires seed < 1664525
    ensures Drawn(seed, k) < 1664525 && Drawn(seed, k) % 5 == (seed + 3 * k) % 5
  {
    hide NextRandom;
    if k > 0 {
      DrawnBy(seed, k - 1);
      RandomInRange(Drawn(seed, k - 1));
      var n := OneDraw(Drawn(seed, k - 1));
      AddThree(Drawn(seed, k - 1), seed + 3 * (k - 1));
    }
  }

  lemma AddThree(a: nat, b: nat)
    requires a % 5 == b % 5
    ensures (a + 3) % 5 == (b + 3) % 5
  {}

  lemma AddFifteen(a: nat, b: nat)
    requires a % 25 == b % 25
    ensures (a + 15) % 25 == (b + 15) % 25
  {}

  lemma NoneAdded(a: nat, k: nat)
    ensures (a + 3 * k) % 5 == a % 5 ==> k % 5 == 0
    ensures (a + 15 * k) % 25 == a % 25 ==> k % 5 == 0
  {
    DivMod(a, 5);
    DivMod(a + 3 * k, 5);
    DivMod(a, 25);
    DivMod(a + 15 * k, 25);
  }

  /** Modulo 25 five draws add 15. */
  lemma FiveDraws(seed: nat, k: nat)
    requires seed < 1664525 && k >= 5
    ensures Drawn(seed, k) % 25 == (Drawn(seed, k - 5) + 15) % 25
  {
    var a := Drawn(seed, k - 5);
    DrawnBy(seed, k - 5);
    var b := NextRandom(a);
    var c := NextRandom(b);
    var d := NextRandom(c);
    var e := NextRandom(d);
    var f := NextRandom(e);
    assert Drawn(seed, k - 4) == b && Drawn(seed, k - 3) == c && Drawn(seed, k - 2) == d && Drawn(seed, k - 1) == e && Drawn(seed, k) == f;
    hide NextRandom, Drawn;
    DrawnBy(seed, k - 4);
    DrawnBy(seed, k - 3);
    DrawnBy(seed, k - 2);
    DrawnBy(seed, k - 1);
    var k1 := OneDraw(a);
    var k2 := OneDraw(b);
    var k3 := OneDraw(c);
    var k4 := OneDraw(d);
    var k5 := OneDraw(e);
    SameRest(f, a + 15, 25, 163364 * a + 187868 + 194481 * k1 + 9261 * k2 + 441 * k3 + 21 * k4 + k5);
  }

  lemma {:induction false} DrawnByFives(seed: nat, j: nat)
    requires seed < 1664525
    ensures Drawn(seed, 5 * j) % 25 == (seed + 15 * j) % 25
  {
    hide Drawn;
    if j > 0 {
      DrawnByFives(seed, j - 1);
      FiveDraws(seed, 5 * j);
      assert 5 * j - 5 == 5 * (j - 1);
      AddFifteen(Drawn(seed, 5 * (j - 1)), seed + 15 * (j - 1));
    } else {
      assert Drawn(seed, 0) == seed by { NoDraw(seed); }
    }
  }

  lemma NoDraw(seed: nat)
    ensures Drawn(seed, 0) == seed
  {}

  /** The state comes back after a multiple of 25 draws only. */
  lemma DrawsMoveOn(seed: nat, k: nat)
    requires seed < 1664525 && Drawn(seed, k) == seed
    ensures k % 25 == 0
  {
    hide Drawn;
    DrawnBy(seed, k);
    NoneAdded(seed, k);
    var j := k / 5;
    DivMod(k, 5);
    assert k == 5 * j;
    DrawnByFives(seed, j);
    NoneAdded(seed, j);
    DivMod(j, 5);
    SameRest(k, 0, 25, j / 5);
  }

  lemma Product(r: nat, total: nat)
    requires r < LCG_M
    ensures r * total <= (LCG_M - 1) * total
  {
    MulNonNegative(LCG_M - 1 - r, total);
    assert (LCG_M - 1) * total - r * total == (LCG_M - 1 - r) * total;
  }

  lemma ScaledInRange(r: nat, total: nat)
    requires r < LCG_M && total >= 1
    ensures Scaled(r, total) < total
    ensures total <= 2580 ==> Scaled(r, total) == r * total / LCG_M
  {
    Product(r, total);
    var x := r * total;
    if total <= 2580 {
      assert x % UINT == x;
    } else {
      assert x % UINT / LCG_M <= 2580;
    }
  }

  /** The winner lies below the number of tickets, wrap-around or not, and is the exact fraction of it
      while the tickets are at most 2580. */
  lemma WinnerInRange(seed: nat, total: nat)
    requires seed < LCG_M && total >= 1
    ensures NextRandom(seed) < LCG_M
    ensures Scaled(NextRandom(seed), total) < total
    ensures total <= 2580 ==> Scaled(NextRandom(seed), total) == NextRandom(seed) * total / LCG_M
    ensures LCG_A * seed + LCG_C < ULONG
  {
    hide NextRandom, Scaled;
    RandomInRange(seed);
    ScaledInRange(NextRandom(seed), total);
  }

  /** 2580 tickets are the exact limit: beyond it the product of the largest random number wraps, and
      with it the fraction is lost. */
  lemma FractionExactly(total: nat)
    ensures (forall r: nat :: r < LCG_M ==> Scaled(r, total) == r * total / LCG_M) <==> total <= 2580
  {
    if total > 2580 {
      var x := (LCG_M - 1) * total;
      assert x / LCG_M >= x % UINT / LCG_M + 2580;
      assert Scaled(LCG_M - 1, total) != (LCG_M - 1) * total / LCG_M;
    } else if total > 0 {
      forall r: nat | r < LCG_M ensures Scaled(r, total) == r * total / LCG_M {
        ScaledInRange(r, total);
      }
    }
  }

  /** The tickets of the runnable environments before `n`. */
  function Prefix(ts: seq<Env>, n: nat): int
    requires n <= |ts|
  {
    if n == 0 then 0 else Prefix(ts, n - 1) + if ts[n - 1].status.Runnable? then ts[n - 1].tickets else 0
  }

  function Pool(ts: seq<Env>): int {
    Prefix(ts, |ts|)
  }

  ghost predicate Positive(ts: seq<Env>) {
    forall i :: 0 <= i < |ts| && !ts[i].status.Free? ==> ts[i].tickets >= 1
  }

  predicate IsRunnable(ts: seq<Env>, k: nat) {
    k < |ts| && ts[k].status.Runnable?
  }

  predicate First(ts: seq<Env>, k: nat) {
    IsRunnable(ts, k) && forall i: nat :: i < k ==> !IsRunnable(ts, i)
  }

  predicate Last(ts: seq<Env>, k: nat) {
    IsRunnable(ts, k) && forall i: nat :: k < i < |ts| ==> !IsRunnable(ts, i)
  }

  /** Draw `w` falls on environment `k`. */
  predicate Chosen(ts: seq<Env>, w: int, k: nat) {
    IsRunnable(ts, k) && (First(ts, k) || Prefix(ts, k) < w) && (Last(ts, k) || w <= Prefix(ts, k + 1))
  }

  lemma {:induction false} PrefixGrows(ts: seq<Env>, i: nat, j: nat)
    requires Positive(ts) && i <= j <= |ts|
    ensures Prefix(ts, i) <= Prefix(ts, j)
    ensures (forall k: nat :: i <= k < j ==> !IsRunnable(ts, k)) ==> Prefix(ts, i) == Prefix(ts, j)
    decreases j
  {
    if i < j {
      PrefixGrows(ts, i, j - 1);
      assert IsRunnable(ts, j - 1) <==> ts[j - 1].status.Runnable?;
    }
  }

  /** Every draw falls on at most one environment. */
  lemma ChosenOnce(ts: seq<Env>, w: int, j: nat, k: nat)
    requires Positive(ts) && j < k
    ensures !(Chosen(ts, w, j) && Chosen(ts, w, k))
  {
    if IsRunnable(ts, j) && IsRunnable(ts, k) {
      PrefixGrows(ts, j + 1, k);
    }
  }

  function Interval(lo: int, hi: int): (r: set<int>)
    requires lo <= hi
    ensures forall w :: w in r <==> lo <= w < hi
    ensures |r| == hi - lo
    decreases hi - lo
  {
    if lo == hi then {} else Interval(lo, hi - 1) + {hi - 1}
  }

  /** The draws of `lo <= w < hi` that fall on `k`. */
  function Wins(ts: seq<Env>, lo: int, hi: int, k: nat): set<int> {
    set w: int | lo <= w < hi && Chosen(ts, w, k)
  }

  lemma Bounds(ts: seq<Env>, k: nat)
    requires Positive(ts) && IsRunnable(ts, k)
    ensures Prefix(ts, k + 1) == Prefix(ts, k) + ts[k].tickets && 0 <= Prefix(ts, k) && Prefix(ts, k + 1) <= Pool(ts)
    ensures First(ts, k) <==> Prefix(ts, k) == 0
    ensures Last(ts, k) <==> Prefix(ts, k + 1) == Pool(ts)
  {
    PrefixGrows(ts, 0, k);
    PrefixGrows(ts, k + 1, |ts|);
    if !First(ts, k) {
      var i: nat :| i < k && IsRunnable(ts, i);
      PrefixGrows(ts, 0, i);
      PrefixGrows(ts, i + 1, k);
    }
    if !Last(ts, k) {
      var i: nat :| k < i < |ts| && IsRunnable(ts, i);
      PrefixGrows(ts, k + 1, i);
      PrefixGrows(ts, i + 1, |ts|);
    }
  }

  /** Of the draws 1 to the size of the pool, each runnable environment wins exactly its tickets. */
  lemma ProportionalShare(ts: seq<Env>, k: nat)
    requires Positive(ts) && IsRunnable(ts, k)
    ensures |Wins(ts, 1, Pool(ts) + 1, k)| == ts[k].tickets
  {
    Bounds(ts, k);
    hide Prefix, First, Last, IsRunnable, Positive;
    assert Wins(ts, 1, Pool(ts) + 1, k) == Interval(Prefix(ts, k) + 1, Prefix(ts, k + 1) + 1);
  }

  /** Of the draws below `n`, the first runnable environment wins one more than its tickets, for draw 0,
      and the last one everything above the pool. */
  lemma ShareBelow(ts: seq<Env>, n: int, k: nat)
    requires Positive(ts) && IsRunnable(ts, k) && n >= Pool(ts)
    ensures |Wins(ts, 0, n, k)| == ts[k].tickets + (if First(ts, k) then 1 else 0) + (if Last(ts, k) then n - Pool(ts) - 1 else 0)
  {
    Bounds(ts, k);
    hide Prefix, First, Last, IsRunnable, Positive;
    var lo, hi := if First(ts, k) then 0 else Prefix(ts, k) + 1, if Last(ts, k) then n else Prefix(ts, k + 1) + 1;
    assert Wins(ts, 0, n, k) == Interval(lo, hi);
  }

  /** Draw 0 falls on the first runnable environment, a draw above the pool on the last. */
  lemma Extremes(ts: seq<Env>, w: int, k: nat)
    requires Positive(ts) && IsRunnable(ts, k)
    ensures w <= 0 ==> (Chosen(ts, w, k) <==> First(ts, k))
    ensures w > Pool(ts) ==> (Chosen(ts, w, k) <==> Last(ts, k))
  {
    Bounds(ts, k);
  }

  // ---------------------------------------------------------------------------------------------
  // Accounting

  /** The tickets of the live environments before `n`. */
  function Tickets(ts: seq<Env>, n: nat): int
    requires n <= |ts|
  {
    if n == 0 then 0 else Tickets(ts, n - 1) + if ts[n - 1].status.Free? then 0 else ts[n - 1].tickets
  }

  function Total(ts: seq<Env>): int {
    Tickets(ts, |ts|)
  }

  function Worth(t: Env): int {
    if t.status.Free? then 0 else t.tickets
  }

  lemma {:induction false} TotalUpdate(ts: seq<Env>, i: nat, t: Env, n: nat)
    requires i < |ts| && n <= |ts|
    ensures Tickets(ts[i := t], n) == Tickets(ts, n) + if i < n then Worth(t) - Worth(ts[i]) else 0
    decreases n
  {
    if n > 0 {
      TotalUpdate(ts, i, t, n - 1);
    }
  }

  /** The tickets are the pool's and the running environment's. */
  lemma {:induction false} TotalIsPool(ts: seq<Env>, cur: int, n: nat)
    requires EnvsOk(ts, cur) && n <= |ts|
    ensures Tickets(ts, n) == Prefix(ts, n) + if 0 <= cur < n then ts[cur].tickets else 0
    decreases n
  {
    if n > 0 { TotalIsPool(ts, cur, n - 1); }
  }

  /** The draws the generator can make are those below the number of tickets, which include the running
      environment's. Each runnable environment wins as many as it has tickets, the first one more, and
      the last also has the running environment's tickets less one. */
  lemma ActualShare(ts: seq<Env>, cur: int, k: nat)
    requires EnvsOk(ts, cur) && IsRunnable(ts, k)
    ensures |Wins(ts, 0, Total(ts), k)| ==
      ts[k].tickets + (if First(ts, k) then 1 else 0) + (if Last(ts, k) then (if cur == NULL then 0 else ts[cur].tickets) - 1 else 0)
  {
    TotalIsPool(ts, cur, |ts|);
    ShareBelow(ts, Total(ts), k);
  }

  /** C division truncates towards zero. */
  function Truncated(a: int, b: int): int
    requires b > 0
  {
    if a >= 0 then a / b else -(-a / b)
  }

  /** The tickets left by `sys_reduce_priority`. */
  function Reduced(tickets: int, percent: int): int {
    var cut := Truncated(tickets * percent, 100);
    if cut > 0 then tickets - cut else 1
  }

  /** An environment that may ask for it is left with a ticket exactly below 100 percent. */
  lemma KeepsATicket(tickets: int, percent: int)
    requires tickets >= 1
    ensures Reduced(tickets, percent) >= 1 <==> percent <= 99
    ensures percent <= 99 ==> Reduced(tickets, percent) <= tickets
  {
    var x := tickets * percent;
    if percent <= 0 {
      assert x <= 0 by { Signs(tickets, percent); }
    } else {
      assert x >= tickets by { Signs(tickets, percent); }
      if percent <= 99 {
        Signs(tickets, 99 - percent + 1);
        assert x <= 99 * tickets;
        assert x / 100 < tickets;
      } else {
        Signs(tickets, percent - 99);
        assert x >= 100 * tickets;
        assert x / 100 >= tickets;
      }
    }
  }

  /** What is taken is the percentage rounded down, and a cut of nothing leaves one ticket. */
  lemma ReducedExactly(tickets: int, percent: int)
    ensures tickets * percent >= 100 ==> 0 <= tickets * percent - 100 * (tickets - Reduced(tickets, percent)) < 100
    ensures tickets * percent < 100 ==> Reduced(tickets, percent) == 1
  {
    var x := tickets * percent;
    if x < 0 { assert -x / 100 >= 0; }
  }

  lemma Signs(a: int, b: int)
    requires a >= 1
    ensures b >= 1 ==> a * b >= a
    ensures b <= 0 ==> a * b <= 0
  {
    if b >= 1 { MulNonNegative(a, b - 1); } else { MulNonNegative(a, -b); }
  }

  /** `env_run`: `to` runs, `from` goes back to the pool if it ran. */
  function Switched(ts: seq<Env>, to: int): seq<Env> {
    seq(|ts|, i requires 0 <= i < |ts| =>
      if i == to then ts[i].(status := Running) else if ts[i].status.Running? then ts[i].(status := Runnable) else ts[i])
  }

  /** Only who runs changes: `to` does, and whoever did before is runnable again. */
  lemma SwitchedOnly(ts: seq<Env>, cur: int, to: int)
    requires EnvsShape(ts, cur) && (to == NULL ==> cur == NULL)
    ensures |Switched(ts, to)| == |ts|
    ensures forall k: nat :: k < |ts| ==> Switched(ts, to)[k] == ts[k].(status := Switched(ts, to)[k].status)
    ensures forall k: nat :: k < |ts| ==>
      Switched(ts, to)[k].status == if k == to then Running else if k == cur then Runnable else ts[k].status
  {}

  lemma {:induction false} SwitchedTotal(ts: seq<Env>, to: int, n: nat)
    requires n <= |ts| && (0 <= to < |ts| ==> !ts[to].status.Free?)
    ensures Tickets(Switched(ts, to), n) == Tickets(ts, n)
    decreases n
  {
    if n > 0 { SwitchedTotal(ts, to, n - 1); }
  }

  /** `sched_boost`: full tickets for every live environment. */
  function Boosted(ts: seq<Env>): seq<Env> {
    seq(|ts|, i requires 0 <= i < |ts| => if ts[i].status.Free? then ts[i] else ts[i].(tickets := FULL))
  }

  lemma BoostedIs(ts: seq<Env>)
    ensures |Boosted(ts)| == |ts|
    ensures forall k: nat :: k < |ts| ==> Boosted(ts)[k] == ts[k].(tickets := Boosted(ts)[k].tickets)
    ensures forall k: nat :: k < |ts| ==> Boosted(ts)[k].tickets == if ts[k].status.Free? then ts[k].tickets else 100
  {}

  /** What holds between kernel calls. */
  ghost predicate EnvsOk(ts: seq<Env>, cur: int) {
    && EnvsShape(ts, cur)
    && (forall i :: 0 <= i < |ts| && !ts[i].status.Free? ==> 1 <= ts[i].tickets <= FULL)
  }

  /** All of it but the tickets. */
  ghost predicate EnvsShape(ts: seq<Env>, cur: int) {
    && |ts| == Kernel.NENV && NULL <= cur < |ts|
    && (forall i :: 0 <= i < |ts| ==> (ts[i].status.Running? <==> i == cur))
    && (forall i :: 0 <= i < |ts| ==> IdOk(ts[i], i))
  }

  /** A slot that was ever used has an identifier that ends in it. */
  predicate IdOk(t: Env, i: nat) {
    if t.id == 0 then t.status.Free? else t.id % Kernel.NENV == i && Kernel.FIRST_ID <= t.id < Kernel.ID_LIMIT
  }

  /** Every live environment but `k` has its tickets. */
  ghost predicate PaidBut(ts: seq<Env>, k: int) {
    forall i :: 0 <= i < |ts| && i != k && !ts[i].status.Free? ==> 1 <= ts[i].tickets <= FULL
  }

  ghost predicate FreeOk(ts: seq<Env>, free: seq<nat>) {
    && (forall i :: 0 <= i < |ts| ==> (i in free <==> ts[i].status.Free?))
    && (forall j, k :: 0 <= j < k < |free| ==> free[j] != free[k])
    && (forall j :: 0 <= j < |free| ==> free[j] < |ts|)
  }

  /** Since the last boost every live environment has lost at most ten tickets a tick. */
  ghost predicate FairTickets(ts: seq<Env>, ticks: nat) {
    forall i :: 0 <= i < |ts| && !ts[i].status.Free? ==> ts[i].tickets >= FULL - STEP * ticks
  }

  class Scheduler {
    const envs: array<Env>
    var envFree: seq<nat>
    var totalTickets: int
    var prevRandom: nat
    var cur: int
    var ticks: nat

    ghost predicate Valid()
      reads this, envs
    {
      Sound() && EnvsOk(envs[..], cur) && totalTickets >= 0
    }

    /** What holds even when an environment has given away its last ticket. */
    ghost predicate Sound()
      reads this, envs
    {
      && EnvsShape(envs[..], cur) && FreeOk(envs[..], envFree)
      && totalTickets == Total(envs[..]) && prevRandom < LCG_M && ticks < INTS2BOOST
    }

    ghost predicate Fair()
      reads this, envs
    {
      FairTickets(envs[..], ticks)
    }

    /** `env_init`: the first slot is allocated first. */
    constructor ()
      ensures Valid() && Fair() && fresh(envs)
      ensures envFree == seq(Kernel.NENV, i => i) && totalTickets == 0 && prevRandom == 1234 && cur == NULL
    {
      var n := Kernel.NENV;
      envs := new Env[n](_ => Env(Free, 0, 0, 0));
      envFree := seq(n, i requires 0 <= i < n => i);
      totalTickets, prevRandom, cur, ticks := 0, 1234, NULL, 0;
      new;
      NoTickets(envs[..], n);
      forall i | 0 <= i < n ensures i in envFree {
        assert envFree[i] == i;
      }
    }

    method GeneratePseudorandomValue() returns (winner: nat)
      requires Valid()
      modifies `prevRandom
      ensures Valid() && prevRandom == NextRandom(old(prevRandom))
      ensures prevRandom == (0x1_0000_0000 * old(prevRandom) + 1013904223) % 1664525
      ensures winner == Scaled(prevRandom, totalTickets) && (totalTickets >= 1 ==> winner < totalTickets)
    {
      hide NextRandom, Scaled, EnvsOk, FreeOk, Tickets;
      RandomInRange(prevRandom);
      NextRandomIs(prevRandom);
      prevRandom := NextRandom(prevRandom);
      if totalTickets >= 1 { ScaledInRange(prevRandom, totalTickets); }
      winner := Scaled(prevRandom, totalTickets);
    }

    /** The loop of the draw: the environment the winning ticket falls on, or the current one. */
    method Draw(winner: nat) returns (idle: int)
      requires EnvsOk(envs[..], cur)
      ensures NoneRunnable(envs[..], |envs[..]|) ==> idle == cur
      ensures !NoneRunnable(envs[..], |envs[..]|) ==> idle >= 0 && Chosen(envs[..], winner, idle)
    {
      ghost var ts := envs[..];
      idle := NULL;
      if cur != NULL && envs[cur].status.Running? {
        idle := cur;
      }
      var counter, i, found := 0, 0, false;
      while i < envs.Length && !found
        invariant 0 <= i <= envs.Length
        invariant counter == Prefix(ts, i)
        invariant if NoneRunnable(ts, i) then idle == cur && !found else idle >= 0 && IsRunnable(ts, idle) && idle < i
        invariant !NoneRunnable(ts, i) ==> (First(ts, idle) || Prefix(ts, idle) < winner) && LastBefore(ts, idle, i)
        invariant !NoneRunnable(ts, i) ==> counter == Prefix(ts, idle + 1) && (found <==> counter >= winner)
        decreases envs.Length - i, !found
      {
        assert IsRunnable(ts, i) <==> envs[i].status.Runnable?;
        if envs[i].status.Runnable? {
          idle := i;
          counter := counter + envs[i].tickets;
          found := counter >= winner;
        }
        i := i + 1;
      }
    }

    /** Draws a winner and switches to it; without a runnable environment the current one goes on. */
    method SchedYield()
      requires Valid()
      modifies this`prevRandom, this`cur, envs
      ensures Valid() && prevRandom == NextRandom(old(prevRandom)) && (old(Fair()) ==> Fair())
      ensures envs[..] == Switched(old(envs[..]), cur)
      ensures if NoneRunnable(old(envs[..]), envs.Length) then cur == old(cur)
              else cur >= 0 && Chosen(old(envs[..]), Scaled(prevRandom, totalTickets), cur)
    {
      hide NextRandom, Scaled, Prefix, Tickets, EnvsOk, EnvsShape, FreeOk, FairTickets, Chosen, Switched, NoneRunnable;
      var winner := GeneratePseudorandomValue();
      ghost var ts := envs[..];
      var idle := Draw(winner);
      SwitchedOk(ts, cur, envFree, ticks, idle, winner);
      EnvRun(idle);
    }

    /** `env_run`, or `sched_halt` when there is nothing to run. */
    method EnvRun(idle: int)
      requires NULL <= idle < envs.Length && EnvsOk(envs[..], cur) && (idle == NULL ==> cur == NULL)
      requires idle != NULL ==> !envs[idle].status.Free?
      modifies this`cur, envs
      ensures envs[..] == Switched(old(envs[..]), idle) && cur == idle
    {
      if idle == NULL {
        cur := NULL;
        return;
      }
      if cur != NULL && envs[cur].status.Running? {
        envs[cur] := envs[cur].(status := Runnable);
      }
      cur := idle;
      envs[cur] := envs[cur].(status := Running);
    }

    /** A new environment starts with full tickets, in the slot freed last. */
    method EnvAlloc(parent: nat) returns (r: int)
      requires Valid()
      modifies this`envFree, this`totalTickets, envs
      ensures Valid() && (old(Fair()) ==> Fair())
      ensures if old(envFree) == [] then r == -E_NO_FREE_ENV && envs[..] == old(envs[..]) && envFree == []
              else r == old(envFree)[0] && envFree == old(envFree)[1..]
                   && envs[..] == old(envs[..])[r := Env(Runnable, 100, Kernel.NextId(old(envs[r].id), r), parent)]
                   && envs[r].id == (if old(envs[r].id) == 0 || old(envs[r].id) + 4096 >= 0x8000_0000 then 4096 + r else old(envs[r].id) + 4096)
    {
      hide Tickets, Kernel.NextId;
      if envFree == [] {
        return -E_NO_FREE_ENV;
      }
      var e := envFree[0];
      ghost var ts := envs[..];
      Kernel.NextIdIs(ts[e].id, e);
      TotalUpdate(ts, e, Env(Runnable, FULL, Kernel.NextId(ts[e].id, e), parent), |ts|);
      envs[e] := Env(Runnable, FULL, Kernel.NextId(envs[e].id, e), parent);
      totalTickets := totalTickets + envs[e].tickets;
      envFree := envFree[1..];
      assert envs[..] == ts[e := envs[e]];
      assert forall i :: i in old(envFree) <==> i == e || i in envFree;
      r := e;
    }

    /** An environment takes its tickets with it. On one processor a running environment is the
        current one, so none becomes a zombie. */
    method EnvDestroy(e: nat)
      requires Sound() && PaidBut(envs[..], cur) && e < envs.Length && !envs[e].status.Free?
      modifies this, envs
      ensures Sound() && (old(Fair()) ==> Fair()) && ticks == old(ticks)
      ensures old(Valid()) || e == old(cur) ==> Valid()
      ensures envFree == [e] + old(envFree) && totalTickets == old(totalTickets) - old(envs[e].tickets)
      ensures envs[e].status.Free?
      ensures e != old(cur) ==> cur == old(cur) && envs[..] == old(envs[..])[e := old(envs[e]).(status := Free)]
      ensures e == old(cur) ==> cur != e && envs[..] == Switched(old(envs[..])[e := old(envs[e]).(status := Free)], cur)
    {
      hide Tickets, Prefix, Chosen;
      ghost var ts := envs[..];
      TotalUpdate(ts, e, ts[e].(status := Free), |ts|);
      ghost var rest, next := ts[e := ts[e].(status := Free)], if cur == e then NULL else cur;
      if Valid() || e == cur { TotalPositive(rest, next, |ts|); }
      totalTickets := totalTickets - envs[e].tickets;
      envs[e] := envs[e].(status := Free);
      envFree := [e] + envFree;
      assert envs[..] == ts[e := ts[e].(status := Free)];
      assert forall i :: i in envFree <==> i == e || i in old(envFree);
      if cur == e {
        cur := NULL;
        SchedYield();
      }
    }

    method ReduceCurrentEnvPrio()
      requires Valid()
      modifies this`totalTickets, envs
      ensures Valid() && envs[..] == TickedOff(old(envs[..]), cur)
      ensures cur != NULL ==> envs[cur].tickets == if old(envs[cur].tickets) > 10 then old(envs[cur].tickets) - 10 else 1
      ensures forall k: nat :: k < envs.Length ==> envs[k] == old(envs[k]).(tickets := envs[k].tickets)
      ensures forall k: nat :: k < envs.Length && k != cur ==> envs[k] == old(envs[k])
    {
      hide Tickets;
      if cur == NULL {
        return;
      }
      ghost var ts := envs[..];
      TotalUpdate(ts, cur, Ticked(ts[cur]), |ts|);
      if envs[cur].tickets > STEP {
        totalTickets := totalTickets - STEP;
        envs[cur] := envs[cur].(tickets := envs[cur].tickets - STEP);
      } else {
        totalTickets := totalTickets - (envs[cur].tickets - 1);
        envs[cur] := envs[cur].(tickets := 1);
      }
      assert envs[..] == ts[cur := Ticked(ts[cur])];
      TotalPositive(envs[..], cur, |ts|);
    }

    method SchedBoost()
      requires Valid()
      modifies this`totalTickets, envs
      ensures Valid() && envs[..] == Boosted(old(envs[..]))
      ensures forall k: nat :: k < envs.Length ==> envs[k] == old(envs[k]).(tickets := envs[k].tickets)
      ensures forall k: nat :: k < envs.Length ==> envs[k].tickets == if envs[k].status.Free? then old(envs[k]).tickets else 100
    {
      ghost var ts := envs[..];
      totalTickets := 0;
      for i := 0 to envs.Length
        invariant forall k :: 0 <= k < i ==> envs[k] == Boosted(ts)[k]
        invariant forall k :: i <= k < envs.Length ==> envs[k] == ts[k]
        invariant totalTickets == Tickets(Boosted(ts), i)
      {
        if envs[i].status.Runnable? || envs[i].status.Running? {
          envs[i] := envs[i].(tickets := FULL);
          totalTickets := totalTickets + FULL;
        }
      }
      assert envs[..] == Boosted(ts);
      BoostedIs(ts);
      hide Boosted;
      TotalPositive(envs[..], cur, |ts|);
    }

    /** The timer interrupt: the running environment pays, every tenth tick all are topped up, and the
        next draw is made. */
    method TimerTick()
      requires Valid()
      modifies this, envs
      ensures Valid() && (old(Fair()) ==> Fair())
      ensures ticks == (old(ticks) + 1) % 10 && envFree == old(envFree)
      ensures envs[..] == Switched(if ticks == 0 then Boosted(TickedOff(old(envs[..]), old(cur))) else TickedOff(old(envs[..]), old(cur)), cur)
    {
      hide Tickets, Prefix, Chosen, EnvsOk, FreeOk;
      ghost var ts := envs[..];
      if Fair() { TickIsFair(ts, cur, ticks); }
      ReduceCurrentEnvPrio();
      ticks := ticks + 1;
      if ticks == INTS2BOOST {
        ticks := 0;
        SchedBoost();
      }
      SchedYield();
    }

    /** Takes a percentage of the caller's tickets; the accounting survives exactly below 100. */
    method SysReducePriority(percent: int)
      requires Valid() && cur != NULL
      modifies this`totalTickets, envs
      ensures envs[..] == old(envs[..])[cur := old(envs[cur]).(tickets := Reduced(old(envs[cur].tickets), percent))]
      ensures totalTickets - old(totalTickets) == envs[cur].tickets - old(envs[cur].tickets)
      ensures old(envs[cur].tickets) * percent >= 100 ==>
        0 <= old(envs[cur].tickets) * percent - 100 * (old(envs[cur].tickets) - envs[cur].tickets) < 100
      ensures old(envs[cur].tickets) * percent < 100 ==> envs[cur].tickets == 1
      ensures Sound() && PaidBut(envs[..], cur) && (Valid() <==> percent <= 99)
    {
      hide Tickets, Reduced;
      ghost var ts := envs[..];
      KeepsATicket(ts[cur].tickets, percent);
      ReducedExactly(ts[cur].tickets, percent);
      TotalUpdate(ts, cur, ts[cur].(tickets := Reduced(ts[cur].tickets, percent)), |ts|);
      var cut := Truncated(envs[cur].tickets * percent, 100);
      ReducedBy(ts[cur].tickets, percent);
      if cut > 0 {
        totalTickets := totalTickets - cut;
        envs[cur] := envs[cur].(tickets := envs[cur].tickets - cut);
      } else {
        totalTickets := totalTickets - (envs[cur].tickets - 1);
        envs[cur] := envs[cur].(tickets := 1);
      }
      assert envs[..] == ts[cur := ts[cur].(tickets := Reduced(ts[cur].tickets, percent))];
      if percent <= 99 { TotalPositive(envs[..], cur, |ts|); }
    }

    /** The environment an identifier names: the caller for 0, else a live one with this identifier,
        which must be the caller or a child of it when permission is checked. */
    method Envid2Env(envid: int, checkperm: bool) returns (e: int)
      requires Sound() && cur != NULL
      ensures e == NULL ==> forall k: nat :: !Named(envs[..], cur, envid, checkperm, k)
      ensures e != NULL ==> 0 <= e < envs.Length && Named(envs[..], cur, envid, checkperm, e)
    {
      hide FreeOk, Tickets;
      if envid == 0 {
        return cur;
      }
      e := envid % Kernel.NENV;
      if envs[e].status.Free? || envs[e].id != envid {
        return NULL;
      }
      if checkperm && e != cur && envs[e].parent != envs[cur].id {
        return NULL;
      }
    }

    /** `SYS_reduce_priority` has no return of its own and goes on into `SYS_env_destroy` with the same
        argument: an environment the percentage names, the caller for 0, is destroyed. The accounting
        is left in order exactly when the percentage is below 100 or the caller's own identifier. */
    method ReducePriorityCall(percent: int) returns (r: int, ghost e: int)
      requires Valid() && cur != NULL
      modifies this, envs
      ensures Sound() && ticks == old(ticks)
      ensures e == NULL ==> r == -E_BAD_ENV && forall k: nat :: !Named(old(envs[..]), old(cur), percent, true, k)
      ensures e == NULL ==> cur == old(cur) && envs[..] == AfterReduce(old(envs[..]), cur, percent)
      ensures e != NULL ==> r == 0 && 0 <= e < envs.Length && Named(old(envs[..]), old(cur), percent, true, e) && envs[e].status.Free?
      ensures e != NULL && e != old(cur) ==>
        cur == old(cur) && envs[..] == AfterReduce(old(envs[..]), cur, percent)[e := old(envs[e]).(status := Free)]
      ensures e != NULL && e == old(cur) ==>
        cur != e && envs[..] == Switched(AfterReduce(old(envs[..]), e, percent)[e := AfterReduce(old(envs[..]), e, percent)[e].(status := Free)], cur)
      ensures percent < Kernel.FIRST_ID ==> (percent == 0 <==> e != NULL) && (percent == 0 ==> e == old(cur))
      ensures Valid() <==> percent <= 99 || percent == old(envs[cur].id)
    {
      hide Tickets, Reduced, Prefix, Chosen, FreeOk, Switched;
      ghost var ts, me := envs[..], cur;
      SysReducePriority(percent);
      assert envs[..] == AfterReduce(ts, me, percent);
      SameNames(ts, me, percent);
      OwnName(ts, me, percent);
      var found := Envid2Env(percent, true);
      e := found;
      if found == NULL {
        return -E_BAD_ENV, e;
      }
      EnvDestroy(found);
      r := 0;
      assert found != me ==> envs[me] == AfterReduce(ts, me, percent)[me];
    }
  }

  predicate Named(ts: seq<Env>, cur: int, envid: int, checkperm: bool, k: nat)
    requires 0 <= cur < |ts|
  {
    if envid == 0 then k == cur
    else k < |ts| && !ts[k].status.Free? && ts[k].id == envid && (checkperm ==> k == cur || ts[k].parent == ts[cur].id)
  }

  /** `sys_reduce_priority` on values. */
  function AfterReduce(ts: seq<Env>, cur: int, percent: int): seq<Env>
    requires 0 <= cur < |ts|
  {
    ts[cur := ts[cur].(tickets := Reduced(ts[cur].tickets, percent))]
  }

  /** Only its own identifier, and 0, name the caller, and they name nobody else. */
  lemma OwnName(ts: seq<Env>, cur: int, percent: int)
    requires EnvsOk(ts, cur) && cur != NULL
    ensures Named(ts, cur, percent, true, cur) <==> percent == 0 || percent == ts[cur].id
    ensures percent == 0 || percent == ts[cur].id ==> forall k: nat :: Named(ts, cur, percent, true, k) ==> k == cur
  {
    assert ts[cur].id % Kernel.NENV == cur;
    forall k: nat | Named(ts, cur, percent, true, k) && percent == ts[cur].id ensures k == cur {
      assert percent != 0 ==> ts[k].id % Kernel.NENV == k;
    }
  }

  lemma SameNames(ts: seq<Env>, cur: int, percent: int)
    requires 0 <= cur < |ts|
    ensures forall k: nat :: Named(AfterReduce(ts, cur, percent), cur, percent, true, k) <==> Named(ts, cur, percent, true, k)
  {
    hide Reduced;
  }

  lemma SwitchedOk(ts: seq<Env>, cur: int, free: seq<nat>, ticks: nat, idle: int, winner: nat)
    requires EnvsOk(ts, cur) && FreeOk(ts, free)
    requires if NoneRunnable(ts, |ts|) then idle == cur else idle >= 0 && Chosen(ts, winner, idle)
    ensures NULL <= idle < |ts| && (idle == NULL ==> cur == NULL) && (idle != NULL ==> !ts[idle].status.Free?)
    ensures EnvsOk(Switched(ts, idle), idle) && EnvsShape(Switched(ts, idle), idle) && FreeOk(Switched(ts, idle), free) && Total(Switched(ts, idle)) == Total(ts)
    ensures FairTickets(ts, ticks) ==> FairTickets(Switched(ts, idle), ticks)
  {
    hide Tickets, Prefix;
    SwitchedTotal(ts, idle, |ts|);
  }

  lemma ReducedBy(tickets: int, percent: int)
    ensures Reduced(tickets, percent) == if Truncated(tickets * percent, 100) > 0 then tickets - Truncated(tickets * percent, 100) else 1
  {}

  function Ticked(t: Env): Env {
    t.(tickets := if t.tickets > STEP then t.tickets - STEP else 1)
  }

  /** `reduce_current_env_prio` on values. */
  function TickedOff(ts: seq<Env>, cur: int): seq<Env> {
    if 0 <= cur < |ts| then ts[cur := Ticked(ts[cur])] else ts
  }

  lemma TickIsFair(ts: seq<Env>, cur: int, ticks: nat)
    requires EnvsOk(ts, cur) && ticks < INTS2BOOST && FairTickets(ts, ticks)
    ensures FairTickets(TickedOff(ts, cur), ticks + 1)
  {}

  predicate NoneRunnable(ts: seq<Env>, n: nat) {
    forall k: nat :: k < n && k < |ts| ==> !IsRunnable(ts, k)
  }

  predicate LastBefore(ts: seq<Env>, k: nat, n: nat) {
    forall i: nat :: k < i < n && i < |ts| ==> !IsRunnable(ts, i)
  }

  lemma {:induction false} NoTickets(ts: seq<Env>, n: nat)
    requires n <= |ts| && forall i :: 0 <= i < |ts| ==> ts[i].status.Free?
    ensures Tickets(ts, n) == 0
    decreases n
  {
    if n > 0 { NoTickets(ts, n - 1); }
  }

  lemma {:induction false} TotalPositive(ts: seq<Env>, cur: int, n: nat)
    requires EnvsOk(ts, cur) && n <= |ts|
    ensures 0 <= Tickets(ts, n) <= n * FULL
    decreases n
  {
    if n > 0 { TotalPositive(ts, cur, n - 1); }
  }
}
