/** The search of the debug symbol table: a binary search over entries of which only some have the
    wanted type, and whose exact match moves the address it looks for. */
module Stab {
  import opened Bitmaps

  const ADDRESS_LIMIT: nat := 0x1_0000_0000

  datatype Entry = Entry(ty: nat, value: Word)

  /** The variables of the search; `left` and `right` are what the caller's pointers hold. */
  datatype Search = Search(l: int, r: int, left: int, right: int, addr: Word, any: bool)

  predicate Typed(s: seq<Entry>, ty: nat, i: int) {
    0 <= i < |s| && s[i].ty == ty
  }

  predicate InTable(s: seq<Entry>, x: Search) {
    0 <= x.l && x.r < |s|
  }

  /** The last entry of the type from `m` down to `l`, or `l - 1`. */
  function LastTyped(s: seq<Entry>, ty: nat, l: int, m: int): (k: int)
    requires 0 <= l && m < |s|
    ensures m < l ==> k == m
    ensures m >= l ==> l - 1 <= k <= m && (k >= l ==> Typed(s, ty, k)) && forall i :: k < i <= m ==> !Typed(s, ty, i)
    decreases m - l
  {
    if m < l || s[m].ty == ty then m else LastTyped(s, ty, l, m - 1)
  }

  /** One turn of the loop. */
  function Turn(s: seq<Entry>, ty: nat, x: Search): Search
    requires InTable(s, x) && x.l <= x.r
  {
    var t := (x.l + x.r) / 2;
    var m := LastTyped(s, ty, x.l, t);
    if m < x.l then x.(l := t + 1)
    else if s[m].value < x.addr then x.(left := m, l := t + 1, any := true)
    else if s[m].value > x.addr then x.(right := m - 1, r := m - 1, any := true)
    else x.(left := m, l := m, addr := (x.addr + 1) % ADDRESS_LIMIT, any := true)
  }

  /** What an exact match lowers when the range stays: the first entry no longer matches. */
  function MatchesFirst(s: seq<Entry>, ty: nat, x: Search): nat {
    if Typed(s, ty, x.l) && s[x.l].value == x.addr then 1 else 0
  }

  lemma TurnShrinks(s: seq<Entry>, ty: nat, x: Search)
    requires InTable(s, x) && x.l <= x.r
    ensures var y := Turn(s, ty, x);
      InTable(s, y) && y.l <= y.r + 1 && (y.r - y.l < x.r - x.l || (y.l == x.l && y.r == x.r && MatchesFirst(s, ty, y) < MatchesFirst(s, ty, x)))
  {}

  function Loop(s: seq<Entry>, ty: nat, x: Search): Search
    requires InTable(s, x)
    decreases x.r - x.l + 1, MatchesFirst(s, ty, x)
  {
    if x.l > x.r then x
    else
      TurnShrinks(s, ty, x);
      Loop(s, ty, Turn(s, ty, x))
  }

  /** After the loop: from the right end back to the last entry of the type. */
  function Settle(s: seq<Entry>, ty: nat, left: int, k: int): int
    requires 0 <= left && k < |s|
    decreases k - left
  {
    if k > left && s[k].ty != ty then Settle(s, ty, left, k - 1) else k
  }

  /** What the end of the loop leaves in the caller's variables. */
  predicate Ends(s: seq<Entry>, ty: nat, x: Search, left: int, right: int) {
    && 0 <= x.left && x.right < |s|
    && if x.any then left == Settle(s, ty, x.left, x.right) && right == x.right else left == x.left && right == x.left - 1
  }

  /** The search of `lo` to `hi` for `addr` returns `left` and `right`. */
  predicate Finds(s: seq<Entry>, ty: nat, lo: int, hi: int, addr: Word, left: int, right: int) {
    0 <= lo && hi < |s| && Ends(s, ty, Loop(s, ty, Start(lo, hi, addr)), left, right)
  }

  function Start(left: int, right: int, addr: Word): Search {
    Search(left, right, left, right, addr, false)
  }

  lemma LoopTurn(s: seq<Entry>, ty: nat, x: Search)
    requires InTable(s, x)
    ensures if x.l > x.r then Loop(s, ty, x) == x
            else InTable(s, Turn(s, ty, x)) && Loop(s, ty, x) == Loop(s, ty, Turn(s, ty, x))
  {
    if x.l <= x.r { TurnShrinks(s, ty, x); }
  }

  /** The search as the source writes it. */
  method StabBinsearch(s: seq<Entry>, regionLeft: int, regionRight: int, ty: nat, addr0: Word) returns (left: int, right: int)
    requires 0 <= regionLeft && regionRight < |s|
    ensures Finds(s, ty, regionLeft, regionRight, addr0, left, right)
  {
    hide Loop, MatchesFirst, LastTyped, Settle;
    left, right := regionLeft, regionRight;
    var addr: Word := addr0;
    var l, r, any := regionLeft, regionRight, false;
    while l <= r
      invariant 0 <= l && r < |s| && 0 <= left && right < |s|
      invariant Loop(s, ty, Start(regionLeft, regionRight, addr0)) == Loop(s, ty, Search(l, r, left, right, addr, any))
      decreases r - l + 1, MatchesFirst(s, ty, Search(l, r, left, right, addr, any))
    {
      ghost var x := Search(l, r, left, right, addr, any);
      TurnShrinks(s, ty, x);
      LoopTurn(s, ty, x);
      var trueM := (l + r) / 2;
      var m := FindBack(s, l, trueM, ty);
      if m < l {
        l := trueM + 1;
      } else {
        any := true;
        if s[m].value < addr {
          left := m;
          l := trueM + 1;
        } else if s[m].value > addr {
          right := m - 1;
          r := m - 1;
        } else {
          left := m;
          l := m;
          addr := (addr + 1) % ADDRESS_LIMIT;
        }
      }
      assert Search(l, r, left, right, addr, any) == Turn(s, ty, x);
    }
    LoopTurn(s, ty, Search(l, r, left, right, addr, any));
    if !any {
      right := left - 1;
    } else {
      left := SettleBack(s, left, right, ty);
    }
  }

  /** The inner loop: the earlier entries, back to one of the type. */
  method FindBack(s: seq<Entry>, l: int, trueM: int, ty: nat) returns (m: int)
    requires 0 <= l && trueM < |s|
    ensures m == LastTyped(s, ty, l, trueM)
  {
    m := trueM;
    while m >= l && s[m].ty != ty
      invariant m <= trueM && (l <= trueM ==> l - 1 <= m)
      invariant LastTyped(s, ty, l, trueM) == LastTyped(s, ty, l, m)
    {
      m := m - 1;
    }
  }

  /** The last loop: from the right end back to an entry of the type. */
  method SettleBack(s: seq<Entry>, left: int, right: int, ty: nat) returns (l: int)
    requires 0 <= left && right < |s|
    ensures l == Settle(s, ty, left, right)
  {
    l := right;
    while l > left && s[l].ty != ty
      invariant l <= right && Settle(s, ty, left, right) == Settle(s, ty, left, l)
    {
      l := l - 1;
    }
  }


  // ---------------------------------------------------------------------------------------------
  // What the search finds

  /** The entries of the type are in increasing order of their values. */
  predicate Sorted(s: seq<Entry>, ty: nat, lo: int, hi: int) {
    forall i, j :: lo <= i <= j <= hi && Typed(s, ty, i) && Typed(s, ty, j) ==> s[i].value <= s[j].value
  }

  predicate HasValue(s: seq<Entry>, ty: nat, lo: int, hi: int, v: int) {
    exists i :: lo <= i <= hi && Typed(s, ty, i) && s[i].value == v
  }

  predicate NoneBetween(s: seq<Entry>, ty: nat, lo: int, hi: int) {
    forall i :: lo <= i < hi ==> !Typed(s, ty, i)
  }

  /** `left` is the last entry passed so far, if one was. */
  predicate LeftOk(s: seq<Entry>, ty: nat, lo: int, x: Search) {
    if x.left == lo && NoneBetween(s, ty, lo, x.l) then true
    else lo <= x.left <= x.r && Typed(s, ty, x.left) && s[x.left].value < x.addr
         && forall i :: lo <= i < x.l && Typed(s, ty, i) ==> s[i].value < x.addr && i <= x.left
  }

  /** The entry matched last, below the moved address. */
  predicate MatchOk(s: seq<Entry>, ty: nat, lo: int, addr0: Word, x: Search) {
    x.addr > addr0 ==> lo <= x.left <= x.l && x.left <= x.r && Typed(s, ty, x.left) && x.addr - 1 <= s[x.left].value < x.addr
  }

  predicate RightOk(s: seq<Entry>, ty: nat, hi: int, addr0: Word, x: Search) {
    && x.right == x.r <= hi
    && (forall i :: x.r < i <= hi && Typed(s, ty, i) ==> s[i].value > addr0 && s[i].value >= x.addr - 1)
    && (x.r < hi ==> Typed(s, ty, x.r + 1))
  }

  predicate AddrOk(s: seq<Entry>, ty: nat, lo: int, hi: int, addr0: Word, x: Search) {
    addr0 <= x.addr && forall v :: addr0 <= v < x.addr ==> HasValue(s, ty, lo, hi, v)
  }

  predicate AnyOk(s: seq<Entry>, ty: nat, lo: int, hi: int, x: Search) {
    if x.any then exists i :: lo <= i <= hi && Typed(s, ty, i)
    else x.r == hi && x.left == lo && NoneBetween(s, ty, lo, x.l)
  }

  predicate SearchOk(s: seq<Entry>, ty: nat, lo: int, hi: int, addr0: Word, x: Search) {
    && 0 <= lo <= x.l <= x.r + 1 && x.r <= hi < |s|
    && LeftOk(s, ty, lo, x) && MatchOk(s, ty, lo, addr0, x) && RightOk(s, ty, hi, addr0, x) && AddrOk(s, ty, lo, hi, addr0, x) && AnyOk(s, ty, lo, hi, x)
  }

  /** The entry a turn looks at. */
  function Probe(s: seq<Entry>, ty: nat, x: Search): int
    requires InTable(s, x) && x.l <= x.r
  {
    LastTyped(s, ty, x.l, (x.l + x.r) / 2)
  }

  /** The turn does not match the top address. */
  predicate NoWrap(s: seq<Entry>, ty: nat, x: Search)
    requires InTable(s, x) && x.l <= x.r
  {
    Turn(s, ty, x).addr >= x.addr
  }

  lemma TurnMatch(s: seq<Entry>, ty: nat, lo: int, hi: int, addr0: Word, x: Search)
    requires SearchOk(s, ty, lo, hi, addr0, x) && Sorted(s, ty, lo, hi) && x.l <= x.r
    requires NoWrap(s, ty, x)
    ensures MatchOk(s, ty, lo, addr0, Turn(s, ty, x))
  {
    hide LeftOk, RightOk, AnyOk;
    var m := Probe(s, ty, x);
    assert m >= x.l ==> Typed(s, ty, m) && lo <= m <= hi;
    if x.addr > addr0 && m >= x.l {
      assert Typed(s, ty, x.left) && s[x.left].value <= s[m].value;
    }
  }

  lemma TurnLeft(s: seq<Entry>, ty: nat, lo: int, hi: int, addr0: Word, x: Search)
    requires SearchOk(s, ty, lo, hi, addr0, x) && Sorted(s, ty, lo, hi) && x.l <= x.r
    requires NoWrap(s, ty, x)
    ensures LeftOk(s, ty, lo, Turn(s, ty, x)) && lo <= Turn(s, ty, x).l <= Turn(s, ty, x).r + 1
  {
    hide RightOk, AddrOk, AnyOk, MatchOk;
    var m := Probe(s, ty, x);
    assert m >= x.l ==> Typed(s, ty, m) && lo <= m <= hi;
  }

  lemma TurnRight(s: seq<Entry>, ty: nat, lo: int, hi: int, addr0: Word, x: Search)
    requires SearchOk(s, ty, lo, hi, addr0, x) && Sorted(s, ty, lo, hi) && x.l <= x.r
    requires NoWrap(s, ty, x)
    ensures RightOk(s, ty, hi, addr0, Turn(s, ty, x))
  {
    hide LeftOk, AnyOk, MatchOk;
    var m := Probe(s, ty, x);
    assert m >= x.l ==> Typed(s, ty, m) && lo <= m <= hi;
    TurnAddr(s, ty, lo, hi, addr0, x);
  }

  lemma TurnAddr(s: seq<Entry>, ty: nat, lo: int, hi: int, addr0: Word, x: Search)
    requires SearchOk(s, ty, lo, hi, addr0, x) && x.l <= x.r
    requires NoWrap(s, ty, x)
    ensures AddrOk(s, ty, lo, hi, addr0, Turn(s, ty, x)) && x.addr <= Turn(s, ty, x).addr <= x.addr + 1
    ensures Turn(s, ty, x).addr > x.addr ==> Probe(s, ty, x) >= x.l && s[Probe(s, ty, x)].value == x.addr
  {
    hide LeftOk, RightOk, AnyOk, MatchOk;
    var m := Probe(s, ty, x);
    assert m >= x.l ==> Typed(s, ty, m) && lo <= m <= hi;
    if m >= x.l && s[m].value == x.addr {
      assert HasValue(s, ty, lo, hi, x.addr);
    }
  }

  lemma TurnAny(s: seq<Entry>, ty: nat, lo: int, hi: int, addr0: Word, x: Search)
    requires SearchOk(s, ty, lo, hi, addr0, x) && x.l <= x.r
    ensures AnyOk(s, ty, lo, hi, Turn(s, ty, x)) && Turn(s, ty, x).r <= hi
  {
    hide LeftOk, RightOk, AddrOk, MatchOk;
    var m := Probe(s, ty, x);
    assert m >= x.l ==> Typed(s, ty, m) && lo <= m <= hi;
  }

  lemma TurnOk(s: seq<Entry>, ty: nat, lo: int, hi: int, addr0: Word, x: Search)
    requires SearchOk(s, ty, lo, hi, addr0, x) && Sorted(s, ty, lo, hi) && x.l <= x.r
    requires NoWrap(s, ty, x)
    ensures SearchOk(s, ty, lo, hi, addr0, Turn(s, ty, x))
  {
    hide LeftOk, RightOk, AddrOk, AnyOk, MatchOk, NoWrap, Turn, Sorted, HasValue;
    TurnLeft(s, ty, lo, hi, addr0, x);
    TurnMatch(s, ty, lo, hi, addr0, x);
    TurnRight(s, ty, lo, hi, addr0, x);
    TurnAddr(s, ty, lo, hi, addr0, x);
    TurnAny(s, ty, lo, hi, addr0, x);
  }

  /** The end of a search that matched the top address: the range has closed in front of the match. */
  predicate WrappedEnd(s: seq<Entry>, ty: nat, lo: int, hi: int, y: Search) {
    && lo <= y.left <= hi && Typed(s, ty, y.left) && s[y.left].value == ADDRESS_LIMIT - 1
    && y.l == y.left && y.right == y.r == y.left - 1 && y.any
  }

  /** After a match at the top the address is 0, and every entry left is above it. */
  lemma {:induction false} WrapEnds(s: seq<Entry>, ty: nat, lo: int, hi: int, x: Search)
    requires 0 <= lo <= x.l == x.left <= x.r == x.right <= hi < |s| && Sorted(s, ty, lo, hi)
    requires Typed(s, ty, x.l) && s[x.l].value == ADDRESS_LIMIT - 1 && x.addr == 0 && x.any
    ensures WrappedEnd(s, ty, lo, hi, Loop(s, ty, x)) && Loop(s, ty, x).left == x.left
    decreases x.r - x.l
  {
    var m := Probe(s, ty, x);
    assert m >= x.l;
    assert s[m].value >= s[x.l].value;
    LoopTurn(s, ty, x);
    if m > x.l {
      WrapEnds(s, ty, lo, hi, Turn(s, ty, x));
    } else {
      LoopTurn(s, ty, Turn(s, ty, x));
    }
  }

  lemma Wraps(s: seq<Entry>, ty: nat, lo: int, hi: int, addr0: Word, x: Search)
    requires SearchOk(s, ty, lo, hi, addr0, x) && Sorted(s, ty, lo, hi) && x.l <= x.r
    requires !NoWrap(s, ty, x)
    ensures WrappedEnd(s, ty, lo, hi, Loop(s, ty, x)) && Loop(s, ty, x).left == Turn(s, ty, x).l
  {
    hide LeftOk, AddrOk, AnyOk, MatchOk, Loop;
    var m := Probe(s, ty, x);
    assert m >= x.l ==> Typed(s, ty, m);
    LoopTurn(s, ty, x);
    WrapEnds(s, ty, lo, hi, Turn(s, ty, x));
  }

  lemma {:induction false} LoopOk(s: seq<Entry>, ty: nat, lo: int, hi: int, addr0: Word, x: Search)
    requires SearchOk(s, ty, lo, hi, addr0, x) && Sorted(s, ty, lo, hi)
    ensures var y := Loop(s, ty, x);
      InTable(s, y) && y.l > y.r && ((SearchOk(s, ty, lo, hi, addr0, y) && y.addr >= x.addr) || WrappedEnd(s, ty, lo, hi, y))
    decreases x.r - x.l + 1, MatchesFirst(s, ty, x)
  {
    hide LeftOk, RightOk, AddrOk, AnyOk, MatchOk, Turn, Sorted, HasValue, WrappedEnd, NoWrap;
    LoopTurn(s, ty, x);
    if x.l <= x.r {
      if NoWrap(s, ty, x) {
        NeverDown(s, ty, x);
        TurnShrinks(s, ty, x);
        TurnOk(s, ty, lo, hi, addr0, x);
        LoopOk(s, ty, lo, hi, addr0, Turn(s, ty, x));
      } else {
        Wraps(s, ty, lo, hi, addr0, x);
        EndOrder(s, ty, lo, hi, Loop(s, ty, x));
      }
    }
  }

  lemma NeverDown(s: seq<Entry>, ty: nat, x: Search)
    requires InTable(s, x) && x.l <= x.r && NoWrap(s, ty, x)
    ensures Turn(s, ty, x).addr >= x.addr
  {}

  lemma EndOrder(s: seq<Entry>, ty: nat, lo: int, hi: int, y: Search)
    requires WrappedEnd(s, ty, lo, hi, y) && 0 <= lo && hi < |s|
    ensures InTable(s, y) && y.l > y.r
  {}

  // ---------------------------------------------------------------------------------------------
  // Agreement with a linear scan

  /** The last entry of the type at or below the address, and the end of its stretch: what scanning
      the whole range finds. */
  predicate Bracket(s: seq<Entry>, ty: nat, lo: int, hi: int, addr: int, left: int, right: int) {
    && lo <= left <= right <= hi && Typed(s, ty, left) && s[left].value <= addr && NoneBetween(s, ty, left + 1, right + 1)
    && (forall i :: left < i <= hi && Typed(s, ty, i) ==> s[i].value > addr)
    && (right < hi ==> Typed(s, ty, right + 1))
  }

  function ScanLast(s: seq<Entry>, ty: nat, lo: int, k: int, addr: int): int
    requires 0 <= lo && k < |s|
    decreases k - lo
  {
    if k < lo || (s[k].ty == ty && s[k].value <= addr) then k else ScanLast(s, ty, lo, k - 1, addr)
  }

  function ScanNext(s: seq<Entry>, ty: nat, k: int, hi: int): int
    requires 0 <= k && hi < |s|
    decreases hi - k
  {
    if k > hi || s[k].ty == ty then k else ScanNext(s, ty, k + 1, hi)
  }

  lemma {:induction false} ScanLastFinds(s: seq<Entry>, ty: nat, lo: int, k: int, addr: int, left: int)
    requires 0 <= lo <= left <= k < |s| && Typed(s, ty, left) && s[left].value <= addr
    requires forall i :: left < i <= k && Typed(s, ty, i) ==> s[i].value > addr
    ensures ScanLast(s, ty, lo, k, addr) == left
    decreases k - lo
  {
    if k > left {
      assert Typed(s, ty, k) <==> s[k].ty == ty;
      ScanLastFinds(s, ty, lo, k - 1, addr, left);
    }
  }

  lemma {:induction false} ScanNextFinds(s: seq<Entry>, ty: nat, k: int, hi: int, right: int)
    requires 0 <= k <= right + 1 && right <= hi < |s| && NoneBetween(s, ty, k, right + 1) && (right < hi ==> Typed(s, ty, right + 1))
    ensures ScanNext(s, ty, k, hi) == right + 1
    decreases hi - k
  {
    if k <= right {
      assert !Typed(s, ty, k);
      ScanNextFinds(s, ty, k + 1, hi, right);
    }
  }

  /** A bracket is what the two scans find, so there is only one. */
  lemma BracketIsScan(s: seq<Entry>, ty: nat, lo: int, hi: int, addr: int, left: int, right: int)
    requires 0 <= lo && hi < |s| && Bracket(s, ty, lo, hi, addr, left, right)
    ensures left == ScanLast(s, ty, lo, hi, addr) && right == ScanNext(s, ty, left + 1, hi) - 1
  {
    ScanLastFinds(s, ty, lo, hi, addr, left);
    ScanNextFinds(s, ty, left + 1, hi, right);
  }

  lemma StartOk(s: seq<Entry>, ty: nat, lo: int, hi: int, addr0: Word)
    requires 0 <= lo <= hi + 1 && hi < |s|
    ensures SearchOk(s, ty, lo, hi, addr0, Start(lo, hi, addr0))
  {}

  lemma {:induction false} SettleStays(s: seq<Entry>, ty: nat, left: int, k: int)
    requires 0 <= left <= k < |s| && NoneBetween(s, ty, left + 1, k + 1)
    ensures Settle(s, ty, left, k) == left
    decreases k - left
  {
    if k > left {
      assert !Typed(s, ty, k);
      SettleStays(s, ty, left, k - 1);
    }
  }

  /** The search up to its first exact match, or to its end without one. */
  function FirstHit(s: seq<Entry>, ty: nat, x: Search): Search
    requires InTable(s, x)
    decreases x.r - x.l + 1, MatchesFirst(s, ty, x)
  {
    if x.l > x.r then x
    else
      TurnShrinks(s, ty, x);
      if Turn(s, ty, x).addr != x.addr then Turn(s, ty, x) else FirstHit(s, ty, Turn(s, ty, x))
  }

  /** The halving cuts off no entry with the address. */
  lemma TurnKeeps(s: seq<Entry>, ty: nat, lo: int, hi: int, x: Search)
    requires 0 <= lo <= x.l <= x.r <= hi < |s| && Sorted(s, ty, lo, hi)
    ensures var y := Turn(s, ty, x);
      if y.addr != x.addr then x.l <= y.l <= y.r == x.r && y.left == y.l && Typed(s, ty, y.l) && s[y.l].value == x.addr && y.addr == (x.addr + 1) % ADDRESS_LIMIT
      else HasValue(s, ty, y.l, y.r, x.addr) == HasValue(s, ty, x.l, x.r, x.addr) && x.l <= y.l && y.r <= x.r
  {
    var y, m := Turn(s, ty, x), Probe(s, ty, x);
    assert m >= x.l ==> Typed(s, ty, m);
    if y.addr == x.addr {
      forall i | x.l <= i <= x.r && Typed(s, ty, i) && s[i].value == x.addr ensures y.l <= i <= y.r {}
    }
  }

  /** The search matches its address exactly when an entry in its range has it. */
  lemma {:induction false} HitsExactly(s: seq<Entry>, ty: nat, lo: int, hi: int, x: Search)
    requires 0 <= lo <= x.l <= x.r + 1 && x.r <= hi < |s| && Sorted(s, ty, lo, hi)
    ensures var y := FirstHit(s, ty, x);
      && InTable(s, y) && Loop(s, ty, y) == Loop(s, ty, x) && x.l <= y.l && y.r <= x.r
      && (y.l <= y.r <==> HasValue(s, ty, x.l, x.r, x.addr))
      && (y.l <= y.r ==> y.left == y.l && Typed(s, ty, y.l) && s[y.l].value == x.addr && y.addr == (x.addr + 1) % ADDRESS_LIMIT)
      && (y.l > y.r ==> y == Loop(s, ty, x) && y.addr == x.addr)
    decreases x.r - x.l + 1, MatchesFirst(s, ty, x)
  {
    hide Turn, Sorted;
    LoopTurn(s, ty, x);
    if x.l <= x.r {
      TurnShrinks(s, ty, x);
      TurnKeeps(s, ty, lo, hi, x);
      hide HasValue, Typed;
      if Turn(s, ty, x).addr == x.addr {
        HitsExactly(s, ty, lo, hi, Turn(s, ty, x));
      }
    }
  }

  /** A match below the top is an ordinary turn. */
  lemma {:induction false} HitOk(s: seq<Entry>, ty: nat, lo: int, hi: int, addr0: Word, x: Search)
    requires SearchOk(s, ty, lo, hi, addr0, x) && Sorted(s, ty, lo, hi) && x.addr < ADDRESS_LIMIT - 1
    ensures SearchOk(s, ty, lo, hi, addr0, FirstHit(s, ty, x))
    decreases x.r - x.l + 1, MatchesFirst(s, ty, x)
  {
    hide LeftOk, RightOk, AddrOk, AnyOk, MatchOk, Sorted, HasValue;
    if x.l <= x.r {
      TurnShrinks(s, ty, x);
      assert NoWrap(s, ty, x);
      hide Turn, NoWrap;
      TurnOk(s, ty, lo, hi, addr0, x);
      if Turn(s, ty, x).addr == x.addr {
        HitOk(s, ty, lo, hi, addr0, Turn(s, ty, x));
      }
    }
  }

  /** A match at the top ends the search in front of it. */
  lemma {:induction false} HitWraps(s: seq<Entry>, ty: nat, lo: int, hi: int, addr0: Word, x: Search)
    requires SearchOk(s, ty, lo, hi, addr0, x) && Sorted(s, ty, lo, hi) && x.addr == ADDRESS_LIMIT - 1
    ensures var y := FirstHit(s, ty, x);
      y.l <= y.r ==> WrappedEnd(s, ty, lo, hi, Loop(s, ty, x)) && Loop(s, ty, x).left == y.l
    decreases x.r - x.l + 1, MatchesFirst(s, ty, x)
  {
    hide LeftOk, RightOk, AddrOk, AnyOk, MatchOk, Sorted, HasValue, WrappedEnd;
    LoopTurn(s, ty, x);
    if x.l <= x.r {
      TurnShrinks(s, ty, x);
      assert NoWrap(s, ty, x) <==> Turn(s, ty, x).addr == x.addr;
      hide Turn, NoWrap;
      if Turn(s, ty, x).addr == x.addr {
        TurnOk(s, ty, lo, hi, addr0, x);
        HitWraps(s, ty, lo, hi, addr0, Turn(s, ty, x));
      } else {
        Wraps(s, ty, lo, hi, addr0, x);
      }
    }
  }

  /** The result of a search that did not wrap. */
  lemma EndBracket(s: seq<Entry>, ty: nat, lo: int, hi: int, addr0: Word, x: Search, left: int, right: int)
    requires SearchOk(s, ty, lo, hi, addr0, x) && x.l > x.r && Ends(s, ty, x, left, right)
    ensures left > right <==> NoneBetween(s, ty, lo, hi + 1)
    ensures Bracket(s, ty, lo, hi, addr0, left, right) <==> AtOrBelow(s, ty, lo, hi, addr0) && x.addr <= addr0 + 1
  {
    if x.any && x.left <= x.r {
      SettleStays(s, ty, x.left, x.right);
    }
  }

  lemma EndAbove(s: seq<Entry>, ty: nat, lo: int, hi: int, addr0: Word, x: Search, left: int, right: int)
    requires SearchOk(s, ty, lo, hi, addr0, x) && x.l > x.r && Ends(s, ty, x, left, right)
    requires left <= right && !AtOrBelow(s, ty, lo, hi, addr0)
    ensures FirstAbove(s, ty, lo, hi, left, right)
  {
    assert !HasValue(s, ty, lo, hi, addr0);
    assert x.left == lo && NoneBetween(s, ty, lo, x.l);
    if x.left <= x.r {
      SettleStays(s, ty, x.left, x.right);
    }
  }

  /** An entry of the type lies at or below the address. */
  predicate AtOrBelow(s: seq<Entry>, ty: nat, lo: int, hi: int, addr: int) {
    exists i :: lo <= i <= hi && Typed(s, ty, i) && s[i].value <= addr
  }

  /** The result when the type occurs above the address only: the stretch before its first entry,
      which names the left end of the range although the entry there has another type. */
  predicate FirstAbove(s: seq<Entry>, ty: nat, lo: int, hi: int, left: int, right: int) {
    && lo - 1 <= right < hi && NoneBetween(s, ty, lo, right + 1) && Typed(s, ty, right + 1)
    && left == if lo <= right then lo else lo - 1
  }

  /** The result after a wrap: the entry before the one matched at the top, whatever that entry is. */
  lemma WrappedResult(s: seq<Entry>, ty: nat, lo: int, hi: int, addr0: Word, y: Search, left: int, right: int)
    requires 0 <= lo && hi < |s| && WrappedEnd(s, ty, lo, hi, y) && Ends(s, ty, y, left, right) && Sorted(s, ty, lo, hi)
    ensures left == right == y.left - 1 && AtOrBelow(s, ty, lo, hi, ADDRESS_LIMIT - 1)
    ensures Bracket(s, ty, lo, hi, addr0, left, right) <==>
      addr0 < ADDRESS_LIMIT - 1 && lo < y.left && Typed(s, ty, y.left - 1) && s[y.left - 1].value <= addr0
  {}

  /** The search goes wrong: after it has matched the address, the range still open holds an entry at
      the next one, or the next one is 0. At the last address but one the wrap can put it right again. */
  predicate Misled(s: seq<Entry>, ty: nat, lo: int, hi: int, addr0: Word)
    requires 0 <= lo && hi < |s|
  {
    var y := FirstHit(s, ty, Start(lo, hi, addr0));
    && HasValue(s, ty, lo, hi, addr0)
    && (addr0 == ADDRESS_LIMIT - 1 ||
        (&& HasValue(s, ty, y.l, y.r, addr0 + 1)
         && (addr0 == ADDRESS_LIMIT - 2 && InTable(s, y) ==>
               var k := FirstHit(s, ty, y).l - 1; !Typed(s, ty, k) || s[k].value > addr0)))
  }

  /** Where the search ends: with `left` above `right` exactly when the type does not occur, and in
      front of the first entry of the type when all are above the address. */
  lemma SearchEnds(s: seq<Entry>, ty: nat, lo: int, hi: int, addr0: Word, left: int, right: int)
    requires lo <= hi + 1 && Finds(s, ty, lo, hi, addr0, left, right) && Sorted(s, ty, lo, hi)
    ensures left > right <==> NoneBetween(s, ty, lo, hi + 1)
    ensures left <= right && !AtOrBelow(s, ty, lo, hi, addr0) ==> FirstAbove(s, ty, lo, hi, left, right)
  {
    hide Loop, Sorted, SearchOk, Ends, FirstAbove, Settle;
    var x := Start(lo, hi, addr0);
    StartOk(s, ty, lo, hi, addr0);
    LoopOk(s, ty, lo, hi, addr0, x);
    if SearchOk(s, ty, lo, hi, addr0, Loop(s, ty, x)) {
      EndBracket(s, ty, lo, hi, addr0, Loop(s, ty, x), left, right);
      if left <= right && !AtOrBelow(s, ty, lo, hi, addr0) {
        EndAbove(s, ty, lo, hi, addr0, Loop(s, ty, x), left, right);
      }
    } else {
      WrappedResult(s, ty, lo, hi, addr0, Loop(s, ty, x), left, right);
      if !AtOrBelow(s, ty, lo, hi, addr0) {
        HitsExactly(s, ty, lo, hi, x);
        NoHitNoWrap(s, ty, lo, hi, addr0, x);
      }
    }
  }

  /** Without a match the search does not wrap. */
  lemma {:induction false} NoHitNoWrap(s: seq<Entry>, ty: nat, lo: int, hi: int, addr0: Word, x: Search)
    requires SearchOk(s, ty, lo, hi, addr0, x) && Sorted(s, ty, lo, hi) && FirstHit(s, ty, x).l > FirstHit(s, ty, x).r
    ensures SearchOk(s, ty, lo, hi, addr0, Loop(s, ty, x)) && Loop(s, ty, x).addr == x.addr && Loop(s, ty, x).l > Loop(s, ty, x).r
    decreases x.r - x.l + 1, MatchesFirst(s, ty, x)
  {
    hide LeftOk, RightOk, AddrOk, AnyOk, MatchOk, Sorted, HasValue, Turn;
    LoopTurn(s, ty, x);
    if x.l <= x.r {
      TurnShrinks(s, ty, x);
      TurnKeeps(s, ty, lo, hi, x);
      TurnOk(s, ty, lo, hi, addr0, x);
      NoHitNoWrap(s, ty, lo, hi, addr0, Turn(s, ty, x));
    }
  }

  lemma ExactWithoutHit(s: seq<Entry>, ty: nat, lo: int, hi: int, addr0: Word, left: int, right: int)
    requires lo <= hi + 1 && Finds(s, ty, lo, hi, addr0, left, right) && Sorted(s, ty, lo, hi) && !HasValue(s, ty, lo, hi, addr0)
    ensures Bracket(s, ty, lo, hi, addr0, left, right) <==> AtOrBelow(s, ty, lo, hi, addr0)
  {
    hide Loop, Sorted, SearchOk, Ends, HasValue, AtOrBelow, Bracket;
    var x := Start(lo, hi, addr0);
    StartOk(s, ty, lo, hi, addr0);
    HitsExactly(s, ty, lo, hi, x);
    NoHitNoWrap(s, ty, lo, hi, addr0, x);
    EndBracket(s, ty, lo, hi, addr0, Loop(s, ty, x), left, right);
  }

  lemma ExactAtTop(s: seq<Entry>, ty: nat, lo: int, hi: int, addr0: Word, left: int, right: int)
    requires lo <= hi + 1 && Finds(s, ty, lo, hi, addr0, left, right) && Sorted(s, ty, lo, hi) && HasValue(s, ty, lo, hi, addr0)
    requires addr0 == ADDRESS_LIMIT - 1
    ensures !Bracket(s, ty, lo, hi, addr0, left, right)
  {
    hide Loop, Sorted, SearchOk, Ends, HasValue, AtOrBelow, Bracket;
    var x := Start(lo, hi, addr0);
    StartOk(s, ty, lo, hi, addr0);
    HitsExactly(s, ty, lo, hi, x);
    HitWraps(s, ty, lo, hi, addr0, x);
    WrappedResult(s, ty, lo, hi, addr0, Loop(s, ty, x), left, right);
  }

  /** The first match, below the top. */
  lemma FirstMatch(s: seq<Entry>, ty: nat, lo: int, hi: int, addr0: Word) returns (y: Search)
    requires 0 <= lo <= hi + 1 && hi < |s| && Sorted(s, ty, lo, hi) && HasValue(s, ty, lo, hi, addr0) && addr0 < ADDRESS_LIMIT - 1
    ensures y == FirstHit(s, ty, Start(lo, hi, addr0)) && lo <= y.l <= y.r <= hi && y.addr == addr0 + 1
    ensures Loop(s, ty, y) == Loop(s, ty, Start(lo, hi, addr0)) && SearchOk(s, ty, lo, hi, addr0, y)
  {
    hide Loop, Sorted, SearchOk, HasValue;
    var x := Start(lo, hi, addr0);
    StartOk(s, ty, lo, hi, addr0);
    HitsExactly(s, ty, lo, hi, x);
    HitOk(s, ty, lo, hi, addr0, x);
    y := FirstHit(s, ty, x);
  }

  lemma MisledIs(s: seq<Entry>, ty: nat, lo: int, hi: int, addr0: Word, y: Search)
    requires 0 <= lo && hi < |s| && HasValue(s, ty, lo, hi, addr0) && addr0 < ADDRESS_LIMIT - 1
    requires y == FirstHit(s, ty, Start(lo, hi, addr0)) && InTable(s, y)
    ensures Misled(s, ty, lo, hi, addr0) <==>
      && HasValue(s, ty, y.l, y.r, addr0 + 1)
      && (addr0 == ADDRESS_LIMIT - 2 ==> var k := FirstHit(s, ty, y).l - 1; !Typed(s, ty, k) || s[k].value > addr0)
  {
    hide FirstHit, HasValue;
  }

  /** From the first match on: no successor in the range, a successor below the top, or one at the top. */
  lemma NoSuccessor(s: seq<Entry>, ty: nat, lo: int, hi: int, addr0: Word, y: Search, left: int, right: int)
    requires 0 <= lo <= hi + 1 && hi < |s| && Sorted(s, ty, lo, hi) && HasValue(s, ty, lo, hi, addr0)
    requires SearchOk(s, ty, lo, hi, addr0, y) && y.addr == addr0 + 1 && Ends(s, ty, Loop(s, ty, y), left, right)
    requires InTable(s, y) && !HasValue(s, ty, y.l, y.r, addr0 + 1)
    ensures Bracket(s, ty, lo, hi, addr0, left, right)
  {
    assert AtOrBelow(s, ty, lo, hi, addr0);
    hide Loop, Sorted, SearchOk, Ends, HasValue, AtOrBelow, Bracket, FirstHit, Turn, Settle;
    RangeOk(s, ty, lo, hi, addr0, y);
    HitsExactly(s, ty, lo, hi, y);
    NoHitNoWrap(s, ty, lo, hi, addr0, y);
    EndBracket(s, ty, lo, hi, addr0, Loop(s, ty, y), left, right);
  }

  lemma SuccessorBelowTop(s: seq<Entry>, ty: nat, lo: int, hi: int, addr0: Word, y: Search, left: int, right: int)
    requires 0 <= lo <= hi + 1 && hi < |s| && Sorted(s, ty, lo, hi) && HasValue(s, ty, lo, hi, addr0)
    requires SearchOk(s, ty, lo, hi, addr0, y) && y.addr == addr0 + 1 && Ends(s, ty, Loop(s, ty, y), left, right)
    requires InTable(s, y) && HasValue(s, ty, y.l, y.r, addr0 + 1) && addr0 < ADDRESS_LIMIT - 2
    ensures !Bracket(s, ty, lo, hi, addr0, left, right)
  {
    hide Loop, Sorted, SearchOk, Ends, HasValue, AtOrBelow, Bracket, FirstHit, Turn, Settle;
    RangeOk(s, ty, lo, hi, addr0, y);
    HitsExactly(s, ty, lo, hi, y);
    HitOk(s, ty, lo, hi, addr0, y);
    PastSuccessor(s, ty, lo, hi, addr0, FirstHit(s, ty, y), left, right);
  }

  lemma SuccessorAtTop(s: seq<Entry>, ty: nat, lo: int, hi: int, addr0: Word, y: Search, left: int, right: int)
    requires 0 <= lo <= hi + 1 && hi < |s| && Sorted(s, ty, lo, hi) && HasValue(s, ty, lo, hi, addr0)
    requires SearchOk(s, ty, lo, hi, addr0, y) && y.addr == addr0 + 1 && Ends(s, ty, Loop(s, ty, y), left, right)
    requires InTable(s, y) && HasValue(s, ty, y.l, y.r, addr0 + 1) && addr0 == ADDRESS_LIMIT - 2
    ensures var k := FirstHit(s, ty, y).l - 1; Bracket(s, ty, lo, hi, addr0, left, right) <==> Typed(s, ty, k) && s[k].value <= addr0
  {
    hide Loop, Sorted, SearchOk, Ends, HasValue, AtOrBelow, Bracket, FirstHit, Turn, Settle, WrappedEnd;
    RangeOk(s, ty, lo, hi, addr0, y);
    HitsExactly(s, ty, lo, hi, y);
    HitWraps(s, ty, lo, hi, addr0, y);
    WrappedBracket(s, ty, lo, hi, addr0, y, Loop(s, ty, y), left, right);
  }

  lemma ExactBelowTop(s: seq<Entry>, ty: nat, lo: int, hi: int, addr0: Word, left: int, right: int)
    requires lo <= hi + 1 && Finds(s, ty, lo, hi, addr0, left, right) && Sorted(s, ty, lo, hi) && HasValue(s, ty, lo, hi, addr0)
    requires addr0 < ADDRESS_LIMIT - 1
    ensures AtOrBelow(s, ty, lo, hi, addr0)
    ensures Bracket(s, ty, lo, hi, addr0, left, right) <==> !Misled(s, ty, lo, hi, addr0)
  {
    assert AtOrBelow(s, ty, lo, hi, addr0);
    hide Loop, Sorted, SearchOk, Ends, HasValue, AtOrBelow, Bracket, FirstHit, Misled, Typed;
    var y := FirstMatch(s, ty, lo, hi, addr0);
    MisledIs(s, ty, lo, hi, addr0, y);
    if !HasValue(s, ty, y.l, y.r, addr0 + 1) {
      NoSuccessor(s, ty, lo, hi, addr0, y, left, right);
    } else if addr0 < ADDRESS_LIMIT - 2 {
      SuccessorBelowTop(s, ty, lo, hi, addr0, y, left, right);
    } else {
      SuccessorAtTop(s, ty, lo, hi, addr0, y, left, right);
    }
  }

  lemma WrappedBracket(s: seq<Entry>, ty: nat, lo: int, hi: int, addr0: Word, y: Search, end: Search, left: int, right: int)
    requires 0 <= lo && hi < |s| && WrappedEnd(s, ty, lo, hi, end) && Ends(s, ty, end, left, right) && Sorted(s, ty, lo, hi)
    requires SearchOk(s, ty, lo, hi, addr0, y) && y.addr == addr0 + 1 == ADDRESS_LIMIT - 1 && y.l <= end.left
    ensures var k := end.left - 1; Bracket(s, ty, lo, hi, addr0, left, right) <==> Typed(s, ty, k) && s[k].value <= addr0
  {
    hide LeftOk, RightOk, AddrOk, AnyOk, Bracket;
    WrappedResult(s, ty, lo, hi, addr0, end, left, right);
    assert y.left != end.left;
  }

  lemma RangeOk(s: seq<Entry>, ty: nat, lo: int, hi: int, addr0: Word, y: Search)
    requires SearchOk(s, ty, lo, hi, addr0, y)
    ensures 0 <= lo <= y.l <= y.r + 1 && y.r <= hi < |s|
  {}

  /** A search that has matched the successor too does not come back to the address. */
  lemma PastSuccessor(s: seq<Entry>, ty: nat, lo: int, hi: int, addr0: Word, z: Search, left: int, right: int)
    requires SearchOk(s, ty, lo, hi, addr0, z) && Sorted(s, ty, lo, hi) && z.addr == addr0 + 2 && addr0 < ADDRESS_LIMIT - 2
    requires lo <= z.l <= z.r <= hi && Typed(s, ty, z.l) && s[z.l].value == addr0 + 1 && Ends(s, ty, Loop(s, ty, z), left, right)
    ensures !Bracket(s, ty, lo, hi, addr0, left, right)
  {
    hide Loop, SearchOk, Ends;
    RangeOk(s, ty, lo, hi, addr0, z);
    LoopOk(s, ty, lo, hi, addr0, z);
    var y := Loop(s, ty, z);
    if SearchOk(s, ty, lo, hi, addr0, y) && y.addr >= z.addr {
      EndBracket(s, ty, lo, hi, addr0, y, left, right);
    } else {
      WrappedResult(s, ty, lo, hi, addr0, y, left, right);
      assert z.l < y.left;
    }
  }

  /** For every sorted table, range, type and address: the search returns the bracket of the address if
      and only if an entry lies at or below it and the search is not misled. */
  lemma BracketExactly(s: seq<Entry>, ty: nat, lo: int, hi: int, addr0: Word, left: int, right: int)
    requires lo <= hi + 1 && Finds(s, ty, lo, hi, addr0, left, right) && Sorted(s, ty, lo, hi)
    ensures 0 <= lo && hi < |s|
    ensures Bracket(s, ty, lo, hi, addr0, left, right) <==> AtOrBelow(s, ty, lo, hi, addr0) && !Misled(s, ty, lo, hi, addr0)
  {
    InRange(s, ty, lo, hi, addr0, left, right);
    hide Loop, Sorted, HasValue, AtOrBelow, Bracket, Finds, FirstHit, Typed;
    if !HasValue(s, ty, lo, hi, addr0) {
      ExactWithoutHit(s, ty, lo, hi, addr0, left, right);
    } else if addr0 == ADDRESS_LIMIT - 1 {
      ExactAtTop(s, ty, lo, hi, addr0, left, right);
    } else {
      ExactBelowTop(s, ty, lo, hi, addr0, left, right);
    }
  }

  /** The search agrees with the linear scan for an address with an entry at or below it, exactly when
      it is not misled. */
  lemma AgreesWithScan(s: seq<Entry>, ty: nat, lo: int, hi: int, addr0: Word, left: int, right: int)
    requires lo <= hi + 1 && Finds(s, ty, lo, hi, addr0, left, right) && Sorted(s, ty, lo, hi) && AtOrBelow(s, ty, lo, hi, addr0)
    ensures 0 <= lo && hi < |s|
    ensures left == ScanLast(s, ty, lo, hi, addr0) && 0 <= left + 1 && right + 1 == ScanNext(s, ty, left + 1, hi) <==> !Misled(s, ty, lo, hi, addr0)
  {
    hide Loop, HasValue, Sorted, Finds, Misled;
    BracketExactly(s, ty, lo, hi, addr0, left, right);
    ScanIsBracket(s, ty, lo, hi, addr0);
    if Bracket(s, ty, lo, hi, addr0, left, right) { BracketIsScan(s, ty, lo, hi, addr0, left, right); }
  }

  /** What a caller can read off the table: the result is the bracket, and the linear scan's, when the
      address itself has no entry, or the next address has none and does not wrap. */
  lemma RightWithoutSuccessor(s: seq<Entry>, ty: nat, lo: int, hi: int, addr0: Word, left: int, right: int)
    requires lo <= hi + 1 && Finds(s, ty, lo, hi, addr0, left, right) && Sorted(s, ty, lo, hi) && AtOrBelow(s, ty, lo, hi, addr0)
    requires !HasValue(s, ty, lo, hi, addr0) || (!HasValue(s, ty, lo, hi, addr0 + 1) && addr0 < ADDRESS_LIMIT - 1)
    ensures 0 <= lo && hi < |s| && Bracket(s, ty, lo, hi, addr0, left, right)
    ensures left == ScanLast(s, ty, lo, hi, addr0) && right + 1 == ScanNext(s, ty, left + 1, hi)
  {
    InRange(s, ty, lo, hi, addr0, left, right);
    BracketExactly(s, ty, lo, hi, addr0, left, right);
    NotMisled(s, ty, lo, hi, addr0);
    hide Finds, Misled;
    BracketIsScan(s, ty, lo, hi, addr0, left, right);
  }

  lemma NotMisled(s: seq<Entry>, ty: nat, lo: int, hi: int, addr0: Word)
    requires 0 <= lo <= hi + 1 && hi < |s| && Sorted(s, ty, lo, hi)
    requires !HasValue(s, ty, lo, hi, addr0) || (!HasValue(s, ty, lo, hi, addr0 + 1) && addr0 < ADDRESS_LIMIT - 1)
    ensures !Misled(s, ty, lo, hi, addr0)
  {
    HitsExactly(s, ty, lo, hi, Start(lo, hi, addr0));
    hide FirstHit, Loop;
  }

  lemma InRange(s: seq<Entry>, ty: nat, lo: int, hi: int, addr0: Word, left: int, right: int)
    requires Finds(s, ty, lo, hi, addr0, left, right)
    ensures 0 <= lo && hi < |s|
  {}

  /** What the scans find is a bracket. */
  lemma ScanIsBracket(s: seq<Entry>, ty: nat, lo: int, hi: int, addr: int)
    requires 0 <= lo && hi < |s| && AtOrBelow(s, ty, lo, hi, addr) && Sorted(s, ty, lo, hi)
    ensures 0 <= ScanLast(s, ty, lo, hi, addr) + 1
    ensures Bracket(s, ty, lo, hi, addr, ScanLast(s, ty, lo, hi, addr), ScanNext(s, ty, ScanLast(s, ty, lo, hi, addr) + 1, hi) - 1)
  {
    var i :| lo <= i <= hi && Typed(s, ty, i) && s[i].value <= addr;
    ScanLastIs(s, ty, lo, hi, addr, i);
    ScanNextIs(s, ty, ScanLast(s, ty, lo, hi, addr) + 1, hi);
  }

  lemma {:induction false} ScanLastIs(s: seq<Entry>, ty: nat, lo: int, k: int, addr: int, i: int)
    requires 0 <= lo <= i <= k < |s| && Typed(s, ty, i) && s[i].value <= addr
    ensures var r := ScanLast(s, ty, lo, k, addr);
      lo <= r <= k && Typed(s, ty, r) && s[r].value <= addr && forall j :: r < j <= k && Typed(s, ty, j) ==> s[j].value > addr
    decreases k - lo
  {
    if !(s[k].ty == ty && s[k].value <= addr) { ScanLastIs(s, ty, lo, k - 1, addr, i); }
  }

  lemma {:induction false} ScanNextIs(s: seq<Entry>, ty: nat, k: int, hi: int)
    requires 0 <= k <= hi + 1 && hi < |s|
    ensures var r := ScanNext(s, ty, k, hi); k <= r <= hi + 1 && NoneBetween(s, ty, k, r) && (r <= hi ==> Typed(s, ty, r))
    decreases hi - k
  {
    if k <= hi && s[k].ty != ty { ScanNextIs(s, ty, k + 1, hi); }
  }

  /** A turn whose middle entry has the type. */
  lemma AtMiddle(s: seq<Entry>, ty: nat, x: Search)
    requires InTable(s, x) && x.l <= x.r && s[(x.l + x.r) / 2].ty == ty
    ensures var m := (x.l + x.r) / 2;
      Turn(s, ty, x) ==
        if s[m].value < x.addr then x.(left := m, l := m + 1, any := true)
        else if s[m].value > x.addr then x.(right := m - 1, r := m - 1, any := true)
        else x.(left := m, l := m, addr := (x.addr + 1) % ADDRESS_LIMIT, any := true)
  {}

  function Neighbours(): seq<Entry> {
    [Entry(36, 5), Entry(36, 7), Entry(36, 8)]
  }

  /** The exact match makes the search go on for the next address, so an entry there is mistaken for
      the one that contains the address: here entry 2 is returned for the address of entry 1. */
  lemma SuccessorMisleads()
    ensures Finds(Neighbours(), 36, 0, 2, 7, 2, 2) && Bracket(Neighbours(), 36, 0, 2, 7, 1, 1)
  {
    hide Loop, Turn;
    var s := Neighbours();
    AtMiddle(s, 36, Start(0, 2, 7));
    LoopTurn(s, 36, Start(0, 2, 7));
    AtMiddle(s, 36, Search(1, 2, 1, 2, 8, true));
    LoopTurn(s, 36, Search(1, 2, 1, 2, 8, true));
    AtMiddle(s, 36, Search(2, 2, 1, 2, 8, true));
    LoopTurn(s, 36, Search(2, 2, 1, 2, 8, true));
    AtMiddle(s, 36, Search(2, 2, 2, 2, 9, true));
    LoopTurn(s, 36, Search(2, 2, 2, 2, 9, true));
    LoopTurn(s, 36, Search(3, 2, 2, 2, 9, true));
  }

  /** At the top of the address space the moved address wraps to 0, and the match is lost. */
  lemma TopWraps()
    ensures Finds([Entry(36, 0xFFFF_FFFF)], 36, 0, 0, 0xFFFF_FFFF, -1, -1)
    ensures Bracket([Entry(36, 0xFFFF_FFFF)], 36, 0, 0, 0xFFFF_FFFF, 0, 0)
  {
    hide Loop, Turn;
    var s := [Entry(36, 0xFFFF_FFFF)];
    AtMiddle(s, 36, Start(0, 0, 0xFFFF_FFFF));
    LoopTurn(s, 36, Start(0, 0, 0xFFFF_FFFF));
    AtMiddle(s, 36, Search(0, 0, 0, 0, 0, true));
    LoopTurn(s, 36, Search(0, 0, 0, 0, 0, true));
    LoopTurn(s, 36, Search(0, -1, 0, -1, 0, true));
  }
}
