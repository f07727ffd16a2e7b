/** The prime sieve as a chain of processes joined by bounded pipes, in any interleaving. */
module Primes {
  import opened Arithmetic

  // ---------------------------------------------------------------------------------------------
  // Numbers

  ghost predicate IsPrime(x: nat) {
    x >= 2 && forall d: nat :: 2 <= d < x ==> x % d != 0
  }

  ghost function PrimesUpTo(n: nat): seq<nat> {
    if n == 0 then [] else PrimesUpTo(n - 1) + if IsPrime(n) then [n] else []
  }

  function Range(a: nat, b: nat): seq<nat>
    decreases b - a
  {
    if a >= b then [] else [a] + Range(a + 1, b)
  }

  /** What a filter stage lets through. */
  function Sift(p: nat, s: seq<nat>): seq<nat>
    requires p > 0
  {
    if s == [] then [] else (if s[0] % p != 0 then [s[0]] else []) + Sift(p, s[1..])
  }

  predicate Ascending(s: seq<nat>) {
    forall i, j :: 0 <= i < j < |s| ==> s[i] < s[j]
  }

  predicate AllPositive(s: seq<nat>) {
    forall i :: 0 <= i < |s| ==> s[i] >= 2
  }

  lemma {:induction false} RangeElements(a: nat, b: nat, x: nat)
    ensures x in Range(a, b) <==> a <= x < b
    ensures Ascending(Range(a, b)) && (forall i :: 0 <= i < |Range(a, b)| ==> Range(a, b)[i] >= a)
    ensures a <= b ==> |Range(a, b)| == b - a
    decreases b - a
  {
    if a < b { RangeElements(a + 1, b, x); }
  }

  lemma {:induction false} SiftElements(p: nat, s: seq<nat>, x: nat)
    requires p > 0
    ensures x in Sift(p, s) <==> x in s && x % p != 0
    ensures |Sift(p, s)| <= |s|
    decreases |s|
  {
    if s != [] {
      SiftElements(p, s[1..], x);
      assert s == [s[0]] + s[1..];
    }
  }

  lemma {:induction false} SiftAscending(p: nat, s: seq<nat>)
    requires p > 0 && Ascending(s)
    ensures Ascending(Sift(p, s))
    decreases |s|
  {
    if s != [] {
      SiftAscending(p, s[1..]);
      forall i | 0 <= i < |Sift(p, s[1..])| ensures s[0] < Sift(p, s[1..])[i] {
        SiftElements(p, s[1..], Sift(p, s[1..])[i]);
      }
    }
  }

  lemma {:induction false} SiftJoin(p: nat, a: seq<nat>, b: seq<nat>)
    requires p > 0
    ensures Sift(p, a + b) == Sift(p, a) + Sift(p, b)
    decreases |a|
  {
    if a == [] {
      assert a + b == b;
    } else {
      assert (a + b)[0] == a[0] && (a + b)[1..] == a[1..] + b;
      SiftJoin(p, a[1..], b);
    }
  }

  lemma SiftPositive(p: nat, s: seq<nat>)
    requires p > 0 && AllPositive(s)
    ensures AllPositive(Sift(p, s))
  {
    forall i | 0 <= i < |Sift(p, s)| ensures Sift(p, s)[i] >= 2 {
      SiftElements(p, s, Sift(p, s)[i]);
    }
  }

  /** The whole input of stage `k`: what stage `k - 1` lets through after its own first number. */
  function Input(n: nat, k: nat): (s: seq<nat>)
    ensures AllPositive(s)
  {
    if k == 0 then
      RangeElements(2, n + 1, 0);
      Range(2, n + 1)
    else
      var prev := Input(n, k - 1);
      if prev == [] then []
      else
        SiftPositive(prev[0], prev[1..]);
        Sift(prev[0], prev[1..])
  }

  // ---------------------------------------------------------------------------------------------
  // What the inputs are

  lemma {:induction false} InputAscending(n: nat, k: nat)
    ensures Ascending(Input(n, k))
    ensures Input(n, k) == [] || |Input(n, k)| + k + 1 <= n
  {
    if k == 0 {
      RangeElements(2, n + 1, 0);
    } else {
      InputAscending(n, k - 1);
      var prev := Input(n, k - 1);
      if prev != [] {
        SiftAscending(prev[0], prev[1..]);
        SiftElements(prev[0], prev[1..], 0);
      }
    }
  }

  lemma InputNext(n: nat, k: nat, x: nat)
    requires Input(n, k) != []
    ensures x in Input(n, k + 1) <==> x in Input(n, k) && x % Input(n, k)[0] != 0
  {
    var prev := Input(n, k);
    SiftElements(prev[0], prev[1..], x);
    assert prev == [prev[0]] + prev[1..];
    SelfDivides(prev[0]);
  }

  lemma InputEnds(n: nat, k: nat)
    requires Input(n, k) == []
    ensures Input(n, k + 1) == []
  {}

  /** No earlier stage's prime divides `x`. */
  predicate Survives(n: nat, k: nat, x: nat) {
    forall j: nat :: j < k ==> Input(n, j) != [] && x % Input(n, j)[0] != 0
  }

  lemma SurvivesNext(n: nat, k: nat, x: nat)
    ensures Survives(n, k + 1, x) <==> Survives(n, k, x) && Input(n, k) != [] && x % Input(n, k)[0] != 0
  {
    hide Input;
  }

  /** Stage `k` is fed exactly the numbers up to `n` that no earlier stage's prime divides. */
  lemma {:induction false} InputElements(n: nat, k: nat, x: nat)
    ensures x in Input(n, k) <==> 2 <= x <= n && Survives(n, k, x)
    decreases k
  {
    hide Input, Survives;
    if k == 0 {
      FirstInput(n, x);
    } else {
      InputElements(n, k - 1, x);
      SurvivesNext(n, k - 1, x);
      if Input(n, k - 1) == [] {
        InputEnds(n, k - 1);
      } else {
        InputNext(n, k - 1, x);
      }
    }
  }

  lemma FirstInput(n: nat, x: nat)
    ensures x in Input(n, 0) <==> 2 <= x <= n
    ensures Survives(n, 0, x)
  {
    RangeElements(2, n + 1, x);
  }

  /** The first number a stage reads is prime. */
  lemma HeadIsPrime(n: nat, k: nat)
    requires Input(n, k) != []
    ensures IsPrime(Input(n, k)[0]) && Input(n, k)[0] <= n
  {
    hide Input, Survives;
    var h := Input(n, k)[0];
    InputElements(n, k, h);
    forall d: nat | 2 <= d < h ensures h % d != 0 {
      SmallerDivides(n, k, d);
      var j :| 0 <= j < k && Input(n, j) != [] && d % Input(n, j)[0] == 0;
      SurvivesAt(n, k, h, j);
      if h % d == 0 {
        DividesThrough(Input(n, j)[0], d, h);
      }
    }
  }

  lemma SurvivesAt(n: nat, k: nat, x: nat, j: nat)
    requires Survives(n, k, x) && j < k
    ensures Input(n, j) != [] && x % Input(n, j)[0] != 0
  {}

  lemma {:induction false} InputShrinks(n: nat, j: nat, k: nat)
    requires j <= k && Input(n, k) != []
    ensures Input(n, j) != []
    decreases k
  {
    if j < k {
      InputShrinks(n, j, k - 1);
    }
  }

  lemma HeadIsLeast(n: nat, k: nat, x: nat)
    requires x in Input(n, k)
    ensures Input(n, k) != [] && Input(n, k)[0] <= x
  {
    InputAscending(n, k);
    var i :| 0 <= i < |Input(n, k)| && Input(n, k)[i] == x;
  }

  /** A number below the first one a stage reads has been sifted out before. */
  lemma SmallerDivides(n: nat, k: nat, d: nat)
    requires Input(n, k) != [] && 2 <= d < Input(n, k)[0]
    ensures exists j :: 0 <= j < k && Input(n, j) != [] && d % Input(n, j)[0] == 0
  {
    hide Input;
    InputElements(n, k, Input(n, k)[0]);
    InputElements(n, k, d);
    if d in Input(n, k) {
      HeadIsLeast(n, k, d);
    } else {
      var j: nat :| j < k && (Input(n, j) == [] || d % Input(n, j)[0] == 0);
      InputShrinks(n, j, k);
    }
  }

  // ---------------------------------------------------------------------------------------------
  // The numbers the stages print

  /** The first numbers of the first `k` stages. */
  function Heads(n: nat, k: nat): seq<nat> {
    if k == 0 then [] else Heads(n, k - 1) + if Input(n, k - 1) != [] then [Input(n, k - 1)[0]] else []
  }

  lemma {:induction false} HeadsAt(n: nat, k: nat, i: nat)
    requires (k > 0 ==> Input(n, k - 1) != []) && i < k
    ensures |Heads(n, k)| == k && Input(n, i) != [] && Heads(n, k)[i] == Input(n, i)[0]
  {
    hide Input;
    if k > 1 { InputShrinks(n, k - 2, k - 1); }
    if i < k - 1 {
      HeadsAt(n, k - 1, i);
    } else if k > 1 {
      HeadsAt(n, k - 1, 0);
    }
  }

  lemma LaterIsGreater(n: nat, i: nat, j: nat)
    requires i < j && Input(n, j) != []
    ensures Input(n, i) != [] && Input(n, i)[0] < Input(n, j)[0]
  {
    hide Input;
    var x := Input(n, j)[0];
    InputShrinks(n, i, j);
    InputElements(n, j, x);
    InputElements(n, i, x);
    HeadIsLeast(n, i, x);
    SelfDivides(x);
    assert x % Input(n, i)[0] != 0;
  }

  lemma {:induction false} SameAscending(s: seq<nat>, t: seq<nat>)
    requires Ascending(s) && Ascending(t) && forall x: nat :: x in s <==> x in t
    ensures s == t
    decreases |s|
  {
    FirstIn(s);
    FirstIn(t);
    if s != [] && t != [] {
      forall x: nat ensures x in s[1..] <==> x in t[1..] {
        assert x in s[1..] <==> x in s && x != s[0];
        assert x in t[1..] <==> x in t && x != t[0];
      }
      SameAscending(s[1..], t[1..]);
    }
  }

  lemma FirstIn(s: seq<nat>)
    ensures s == [] || s[0] in s
  {}

  lemma {:induction false} PrimesElements(n: nat, x: nat)
    ensures x in PrimesUpTo(n) <==> x <= n && IsPrime(x)
    ensures Ascending(PrimesUpTo(n)) && forall i :: 0 <= i < |PrimesUpTo(n)| ==> PrimesUpTo(n)[i] <= n
  {
    hide IsPrime;
    if n > 0 { PrimesElements(n - 1, x); } else { assert !IsPrime(0) by { NoSmallPrime(); } }
  }

  lemma NoSmallPrime()
    ensures !IsPrime(0)
  {}

  lemma HeadsAscending(n: nat, k: nat)
    requires k > 0 ==> Input(n, k - 1) != []
    ensures Ascending(Heads(n, k))
  {
    hide Input, Heads;
    if k > 0 { HeadsAt(n, k, 0); } else { assert Heads(n, 0) == [] by { NoHeads(n); } }
    forall i, j | 0 <= i < j < |Heads(n, k)| ensures Heads(n, k)[i] < Heads(n, k)[j] {
      HeadsAt(n, k, i);
      HeadsAt(n, k, j);
      LaterIsGreater(n, i, j);
    }
  }

  lemma NoHeads(n: nat)
    ensures Heads(n, 0) == []
  {}

  /** When stage `k` is the first with nothing to read, the stages before it print all the primes. */
  lemma HeadsArePrimes(n: nat, k: nat)
    requires Input(n, k) == [] && (k > 0 ==> Input(n, k - 1) != [])
    ensures Heads(n, k) == PrimesUpTo(n)
  {
    hide Input, Heads, PrimesUpTo;
    HeadsAscending(n, k);
    forall x: nat ensures x in Heads(n, k) <==> x in PrimesUpTo(n) {
      PrimesElements(n, x);
      if x in Heads(n, k) {
        HeadHasStage(n, k, x);
        var i :| 0 <= i < k && Input(n, i) != [] && Input(n, i)[0] == x;
        HeadIsPrime(n, i);
      }
      if x <= n && IsPrime(x) {
        PrimeIsHead(n, k, x);
      }
    }
    PrimesElements(n, 0);
    SameAscending(Heads(n, k), PrimesUpTo(n));
  }

  lemma HeadHasStage(n: nat, k: nat, x: nat)
    requires (k > 0 ==> Input(n, k - 1) != []) && x in Heads(n, k)
    ensures exists i :: 0 <= i < k && Input(n, i) != [] && Input(n, i)[0] == x
  {
    var i :| 0 <= i < |Heads(n, k)| && Heads(n, k)[i] == x;
    HeadsAt(n, k, 0);
    HeadsAt(n, k, i);
  }

  lemma PrimeIsHead(n: nat, k: nat, x: nat)
    requires Input(n, k) == [] && (k > 0 ==> Input(n, k - 1) != []) && x <= n && IsPrime(x)
    ensures x in Heads(n, k)
  {
    hide Input, Heads;
    InputElements(n, k, x);
    assert !Survives(n, k, x);
    var j: nat :| j < k && (Input(n, j) == [] || x % Input(n, j)[0] == 0);
    HeadsAt(n, k, j);
    var h := Input(n, j)[0];
    assert h >= 2;
    assert h == x;
    assert Heads(n, k)[j] == x;
  }

  lemma {:induction false} FirstEmpty(n: nat, m: nat) returns (k: nat)
    requires m > 0 ==> Input(n, m - 1) != []
    ensures m <= k && Input(n, k) == [] && (k > 0 ==> Input(n, k - 1) != [])
    decreases n - m
  {
    hide Input;
    InputAscending(n, m);
    if Input(n, m) == [] {
      k := m;
    } else {
      k := FirstEmpty(n, m + 1);
    }
  }

  /** The numbers printed so far are the first primes in order. */
  lemma HeadsArePrefix(n: nat, m: nat)
    requires m > 0 ==> Input(n, m - 1) != []
    ensures Heads(n, m) <= PrimesUpTo(n)
  {
    hide Input, Heads, PrimesUpTo;
    var k := FirstEmpty(n, m);
    HeadsArePrimes(n, k);
    if m > 0 { HeadsAt(n, m, 0); HeadsAt(n, k, 0); } else { NoHeads(n); }
    forall i: nat | i < m ensures Heads(n, m)[i] == Heads(n, k)[i] {
      HeadsAt(n, m, i);
      HeadsAt(n, k, i);
    }
  }

  /** The first number stage `k` reads is prime number `k`. */
  lemma HeadIsKthPrime(n: nat, k: nat)
    requires Input(n, k) != []
    ensures k < |PrimesUpTo(n)| && PrimesUpTo(n)[k] == Input(n, k)[0]
  {
    hide Input, Heads, PrimesUpTo;
    HeadsArePrefix(n, k + 1);
    HeadsAt(n, k + 1, k);
  }

  /** Surviving `k` stages means that none of the first `k` primes divides the number. */
  lemma SurvivesMeans(n: nat, k: nat, x: nat)
    requires k > 0 ==> Input(n, k - 1) != []
    ensures k <= |PrimesUpTo(n)|
    ensures Survives(n, k, x) <==> forall j :: 0 <= j < k ==> PrimesUpTo(n)[j] > 0 && x % PrimesUpTo(n)[j] != 0
  {
    hide Input, PrimesUpTo;
    if k > 0 { HeadIsKthPrime(n, k - 1); }
    forall j: nat | j < k ensures j < |PrimesUpTo(n)| && Input(n, j) != [] && PrimesUpTo(n)[j] == Input(n, j)[0] && PrimesUpTo(n)[j] > 0 {
      InputShrinks(n, j, k - 1);
      HeadIsKthPrime(n, j);
      HeadPositive(n, j);
    }
  }

  lemma HeadPositive(n: nat, k: nat)
    requires Input(n, k) != []
    ensures Input(n, k)[0] > 0
  {}
}
