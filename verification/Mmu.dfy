/** The address and page-table-entry macros of the memory management unit, on the bit operators,
    with their arithmetic meaning. */
module Mmu {
  import opened Arithmetic
  import opened Bitmaps

  const PTXSHIFT := 12
  const PDXSHIFT := 22
  const PGSIZE := 4096
  const NPDENTRIES := 1024
  const NPTENTRIES := 1024
  const ADDRESS_LIMIT: nat := 0x1_0000_0000

  const PTE_P: nat := 0x001
  const PTE_W: nat := 0x002
  const PTE_U: nat := 0x004

  function Shl(x: nat, k: nat): nat { x * Mask(k) }
  function Shr(x: nat, k: nat): nat { if k == 0 then x else Shr(x / 2, k - 1) }

  function PDX(la: nat): nat { And(Shr(la, PDXSHIFT), 0x3FF) }
  function PTX(la: nat): nat { And(Shr(la, PTXSHIFT), 0x3FF) }
  function PGOFF(la: nat): nat { And(la, 0xFFF) }
  function PGNUM(la: nat): nat { Shr(la, PTXSHIFT) }
  function PGADDR(d: nat, t: nat, o: nat): nat { Or(Or(Shl(d, PDXSHIFT), Shl(t, PTXSHIFT)), o) }
  function PTE_ADDR(pte: nat): nat { AndNot(pte, 0xFFF) }

  lemma Shifts()
    ensures Mask(PTXSHIFT) == 0x1000 && Mask(10) == 0x400 && Mask(PDXSHIFT) == 0x40_0000 && Mask(32) == ADDRESS_LIMIT
  {
    assert Mask(5) == 32;
    assert Mask(10) == 1024;
    assert Mask(15) == 0x8000;
    assert Mask(20) == 0x10_0000;
    WordLimit();
  }

  /** Or-ing in bits below a shifted value adds them. */
  lemma {:induction false} OrIsSum(a: nat, b: nat, k: nat)
    requires b < Mask(k)
    ensures Or(a * Mask(k), b) == a * Mask(k) + b
    decreases k
  {
    if k == 0 {
      OrZero(a);
    } else {
      var m := Mask(k - 1);
      assert a * Mask(k) == 2 * (a * m);
      OrIsSum(a, b / 2, k - 1);
      if a * Mask(k) == 0 && b == 0 {
      } else {
        assert (a * Mask(k)) / 2 == a * m && (a * Mask(k)) % 2 == 0;
      }
    }
  }

  lemma {:induction false} OrZero(a: nat)
    ensures Or(a, 0) == a
  {
    if a > 0 { OrZero(a / 2); }
  }

  lemma {:induction false} AndZero(a: nat)
    ensures And(a, 0) == 0 && AndNot(a, 0) == a
  {
    if a > 0 { AndZero(a / 2); }
  }

  /** Masking with `2^k - 1` keeps the remainder; masking it away keeps the rest. */
  lemma {:induction false} LowBits(a: nat, k: nat)
    ensures Mask(k) > 0
    ensures And(a, Mask(k) - 1) == a % Mask(k)
    ensures AndNot(a, Mask(k) - 1) == a - a % Mask(k)
    decreases k
  {
    if k == 0 {
      AndZero(a);
    } else {
      LowBits(a / 2, k - 1);
      var m := Mask(k - 1);
      assert Mask(k) - 1 == 2 * (m - 1) + 1;
      HalvedRemainder(a, m);
      assert (Mask(k) - 1) / 2 == m - 1 && (Mask(k) - 1) % 2 == 1;
    }
  }

  lemma HalvedRemainder(a: nat, m: nat)
    requires m > 0
    ensures a % (2 * m) == 2 * (a / 2 % m) + a % 2
  {
    var q, r := a / 2 / m, a / 2 % m;
    assert a == 2 * (q * m + r) + a % 2;
    assert a == q * (2 * m) + (2 * r + a % 2);
    Remainder(q, 2 * m, 2 * r + a % 2);
  }

  /** The low bits of a word are those of its remainder. */
  lemma {:induction false} LowBit(w: nat, j: nat, k: nat)
    requires j < k
    ensures Mask(k) > 0 && BitAt(w % Mask(k), j) == BitAt(w, j)
    decreases k
  {
    HalvedRemainder(w, Mask(k - 1));
    if j > 0 { LowBit(w / 2, j - 1, k - 1); }
  }

  lemma ShiftedBy(x: nat)
    ensures Shl(x, PTXSHIFT) == x * 0x1000 && Shl(x, PDXSHIFT) == x * 0x40_0000
    ensures Shr(x, PTXSHIFT) == x / 0x1000 && Shr(x, PDXSHIFT) == x / 0x40_0000
  {
    Shifts();
    ShrIsDivision(x);
  }

  lemma {:induction false} ShrShr(x: nat, j: nat, k: nat)
    ensures Shr(x, j + k) == Shr(Shr(x, j), k)
    decreases j
  {
    if j > 0 {
      ShrShr(x / 2, j - 1, k);
    }
  }

  lemma ShrFour(x: nat)
    ensures Shr(x, 4) == x / 16
  {
    hide Shr;
    ShrShr(x, 2, 2);
    ShrTwo(x);
    ShrTwo(x / 4);
  }

  lemma ShrTen(x: nat)
    ensures Shr(x, 10) == x / 1024
  {
    hide Shr;
    ShrShr(x, 4, 6);
    ShrFour(x);
    ShrShr(x / 16, 4, 2);
    ShrFour(x / 16);
    ShrTwo(x / 16 / 16);
  }

  lemma ShrTwo(x: nat)
    ensures Shr(x, 2) == x / 4
  {
    assert Shr(x / 2, 1) == Shr(x / 2 / 2, 0);
  }

  lemma ShrIsDivision(x: nat)
    ensures Shr(x, PTXSHIFT) == x / 0x1000 && Shr(x, PDXSHIFT) == x / 0x40_0000
  {
    hide Shr;
    ShrShr(x, 10, 2);
    ShrTen(x);
    ShrTwo(x / 1024);
    ShrShr(x, 12, 10);
    ShrTen(x / 1024 / 4);
  }

  lemma LowFields(x: nat)
    ensures And(x, 0x3FF) == x % 1024 && And(x, 0xFFF) == x % 0x1000 && AndNot(x, 0xFFF) == x - x % 0x1000
  {
    Shifts();
    LowBits(x, 10);
    LowBits(x, 12);
  }

  /** The macros as arithmetic. */
  lemma Fields(la: nat)
    ensures PDX(la) == la / 0x40_0000 % 1024 && PTX(la) == la / 0x1000 % 1024 && PGOFF(la) == la % 0x1000
    ensures PGNUM(la) == la / 0x1000 && PTE_ADDR(la) == la - la % 0x1000
  {
    hide And, AndNot, Mask, Shr;
    ShiftedBy(la);
    LowFields(la / 0x1000);
    LowFields(la / 0x40_0000);
    LowFields(la);
  }

  lemma Assembled(d: nat, t: nat, o: nat)
    requires d < NPDENTRIES && t < NPTENTRIES && o < PGSIZE
    ensures PGADDR(d, t, o) == d * 0x40_0000 + t * 0x1000 + o
  {
    hide Or, Shl;
    Shifts();
    ShiftedBy(d);
    ShiftedBy(t);
    OrIsSum(d, t * 0x1000, 22);
    OrIsSum(d * 1024 + t, o, 12);
  }

  /** `PGADDR` puts together what the field macros take apart... */
  lemma AddressRoundTrip(la: nat)
    requires la < ADDRESS_LIMIT
    ensures PGADDR(PDX(la), PTX(la), PGOFF(la)) == la
    ensures PGNUM(la) == PDX(la) * 1024 + PTX(la)
  {
    hide PDX, PTX, PGOFF, PGNUM, PGADDR, PTE_ADDR;
    Fields(la);
    Assembled(PDX(la), PTX(la), PGOFF(la));
  }

  /** ...and the other way round, so linear addresses and field triples are in bijection. */
  lemma FieldsRoundTrip(d: nat, t: nat, o: nat)
    requires d < NPDENTRIES && t < NPTENTRIES && o < PGSIZE
    ensures PGADDR(d, t, o) < ADDRESS_LIMIT
    ensures PDX(PGADDR(d, t, o)) == d && PTX(PGADDR(d, t, o)) == t && PGOFF(PGADDR(d, t, o)) == o
  {
    hide PDX, PTX, PGOFF, PGNUM, PGADDR, PTE_ADDR;
    Assembled(d, t, o);
    Fields(PGADDR(d, t, o));
    FieldParts(d, t, o);
  }

  lemma FieldParts(d: nat, t: nat, o: nat)
    requires d < NPDENTRIES && t < NPTENTRIES && o < PGSIZE
    ensures var x := d * 0x40_0000 + t * 0x1000 + o;
      x < ADDRESS_LIMIT && x / 0x40_0000 == d && x / 0x1000 % 1024 == t && x % 0x1000 == o
  {
    assert d * 0x40_0000 + t * 0x1000 + o == (d * 1024 + t) * 0x1000 + o;
    assert ((d * 1024 + t) * 0x1000 + o) / 0x1000 == d * 1024 + t;
  }

  /** `page2pa(pp) | perm | PTE_P`. */
  function MakePte(pn: nat, perm: nat): nat {
    Or(Or(Shl(pn, PTXSHIFT), perm), PTE_P)
  }

  lemma OrOne(v: nat)
    ensures Or(v, PTE_P) == if v % 2 == 1 then v else v + 1
  {
    OrZero(v / 2);
  }

  lemma PteSum(pn: nat, perm: nat)
    requires perm < PGSIZE
    ensures MakePte(pn, perm) == pn * 0x1000 + Or(perm, PTE_P)
    ensures Or(perm, PTE_P) == if perm % 2 == 1 then perm else perm + 1
  {
    hide Or, Shl;
    Shifts();
    ShiftedBy(pn);
    OrIsSum(pn, perm, 12);
    OrOne(pn * 0x1000 + perm);
    OrOne(perm);
  }

  /** An entry gives back its page number, and its permissions with the present bit set. */
  lemma PteRoundTrip(pn: nat, perm: nat)
    requires perm < PGSIZE
    ensures var w := MakePte(pn, perm);
      && w / 0x1000 == pn && w % 0x1000 == Or(perm, PTE_P) && w % 2 == 1
      && PGNUM(PTE_ADDR(w)) == pn
  {
    hide Or, MakePte, PTE_ADDR, PGNUM;
    PteSum(pn, perm);
    var w, r := MakePte(pn, perm), Or(perm, PTE_P);
    assert r < 0x1000 && r % 2 == 1;
    PteParts(pn, r);
    Fields(w);
    Fields(PTE_ADDR(w));
  }

  /** The entry of a new table. */
  lemma TableEntry(pn: nat)
    ensures MakePte(pn, PTE_W + PTE_U) == pn * 0x1000 + 7
  {
    PteSum(pn, PTE_W + PTE_U);
  }

  lemma PteParts(pn: nat, r: nat)
    requires r < 0x1000
    ensures var w := pn * 0x1000 + r; w / 0x1000 == pn && w % 0x1000 == r && (w - r) / 0x1000 == pn && w % 2 == r % 2
  {
  }

  lemma OrStep(u: nat, v: nat)
    ensures Or(u, v) == Bit(u % 2 == 1 || v % 2 == 1) + 2 * Or(u / 2, v / 2)
  {}

  /** Bitwise or, high and low digits apart. */
  lemma OrByTwo(a: nat, b: nat, x: nat, y: nat)
    requires x < 2 && y < 2
    ensures Or(2 * a + x, 2 * b + y) == 2 * Or(a, b) + Or(x, y) && Or(x, y) < 2
  {
    OrStep(2 * a + x, 2 * b + y);
    OrStep(x, y);
    assert Or(0, 0) == 0;
    hide Or;
  }

  lemma OrByFour(a: nat, b: nat, x: nat, y: nat)
    requires x < 4 && y < 4
    ensures Or(4 * a + x, 4 * b + y) == 4 * Or(a, b) + Or(x, y) && Or(x, y) < 4
  {
    hide Or;
    OrByTwo(2 * a + x / 2, 2 * b + y / 2, x % 2, y % 2);
    OrByTwo(a, b, x / 2, y / 2);
    OrByTwo(x / 2, y / 2, x % 2, y % 2);
  }

  lemma OrBySixteen(a: nat, b: nat, x: nat, y: nat)
    requires x < 16 && y < 16
    ensures Or(16 * a + x, 16 * b + y) == 16 * Or(a, b) + Or(x, y) && Or(x, y) < 16
  {
    hide Or;
    OrByFour(4 * a + x / 4, 4 * b + y / 4, x % 4, y % 4);
    OrByFour(a, b, x / 4, y / 4);
    OrByFour(x / 4, y / 4, x % 4, y % 4);
  }

  lemma OrByByte(a: nat, b: nat, x: nat, y: nat)
    requires x < 256 && y < 256
    ensures Or(256 * a + x, 256 * b + y) == 256 * Or(a, b) + Or(x, y) && Or(x, y) < 256
  {
    hide Or;
    OrBySixteen(16 * a + x / 16, 16 * b + y / 16, x % 16, y % 16);
    OrBySixteen(a, b, x / 16, y / 16);
    OrBySixteen(x / 16, y / 16, x % 16, y % 16);
  }

  lemma OrByPage(a: nat, b: nat, x: nat, y: nat)
    requires x < 0x1000 && y < 0x1000
    ensures Or(a * 0x1000 + x, b * 0x1000 + y) == Or(a, b) * 0x1000 + Or(x, y)
  {
    hide Or;
    OrByByte(16 * a + x / 256, 16 * b + y / 256, x % 256, y % 256);
    OrBySixteen(a, b, x / 256, y / 256);
    OrByByte(x / 256, y / 256, x % 256, y % 256);
  }

  lemma OrPages(pn: nat, high: nat, low: nat)
    requires low < PGSIZE
    ensures Or(pn * 0x1000, high * 0x1000 + low) == Or(Or(pn, high) * 0x1000, low)
  {
    hide Or;
    OrByPage(pn, high, 0, low);
    OrByPage(Or(pn, high), 0, 0, low);
    OrZero(Or(pn, high));
  }

  /** The permission word adds no page number bit to the page's own. */
  predicate KeepsPage(pn: nat, perm: nat) {
    Or(pn, perm / PGSIZE) == pn
  }

  /** A permission word with more than twelve bits changes the page an entry names, unless it adds no
      bit to it. */
  lemma PteExactly(pn: nat, perm: nat)
    ensures PGNUM(PTE_ADDR(MakePte(pn, perm))) == pn <==> KeepsPage(pn, perm)
    ensures MakePte(pn, perm) == MakePte(Or(pn, perm / PGSIZE), perm % PGSIZE)
  {
    hide Or, PTE_ADDR, PGNUM, MakePte;
    PteLow(pn, perm);
    PteRoundTrip(Or(pn, perm / PGSIZE), perm % PGSIZE);
  }

  lemma PteLow(pn: nat, perm: nat)
    ensures MakePte(pn, perm) == MakePte(Or(pn, perm / PGSIZE), perm % PGSIZE)
  {
    hide Or, Shl;
    ShiftedBy(pn);
    ShiftedBy(Or(pn, perm / PGSIZE));
    OrPages(pn, perm / PGSIZE, perm % PGSIZE);
  }

  /** Twelve bits never change it. */
  lemma SmallKeeps(perm: nat)
    requires perm < PGSIZE
    ensures forall pn: nat :: KeepsPage(pn, perm)
  {
    forall pn: nat ensures KeepsPage(pn, perm) {
      OrZero(pn);
    }
  }
}
