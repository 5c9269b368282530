/** Walks modulo a table size: which sizes let every skip reach every slot. */
module Primes {
  import opened Basics

  predicate Divides(d: int, x: int)
    requires d != 0
  {
    x % d == 0
  }

  ghost predicate Prime(m: int) {
    2 <= m && forall d :: 2 <= d < m ==> !Divides(d, m)
  }

  ghost predicate Coprime(a: int, b: int) {
    forall d :: 2 <= d && Divides(d, a) ==> !Divides(d, b)
  }

  /** A walk over the slots `0..m`: start at `offset`, advance by `skip`. */
  datatype Walk = Walk(offset: nat, skip: nat)

  predicate ValidWalk(w: Walk, m: nat) {
    w.offset < m && 0 < w.skip < m
  }

  /** The slot after `c`, for `c` and `skip` below `m`. */
  function Advance(c: nat, skip: nat, m: nat): nat {
    if c + skip < m then c + skip else if c + skip < 2 * m then c + skip - m else 0
  }

  lemma AdvanceIsModular(c: nat, skip: nat, m: nat)
    requires c < m && skip < m
    ensures Advance(c, skip, m) == (c + skip) % m
  {
    var q := if c + skip < m then 0 else 1;
    DivModUnique(c + skip, m, q, c + skip - m * q);
  }

  /** The slot that a walk visits at step `j`. */
  function Slot(w: Walk, m: nat, j: nat): (c: nat)
    requires ValidWalk(w, m)
    ensures c < m
  {
    if j == 0 then w.offset else Advance(Slot(w, m, j - 1), w.skip, m)
  }

  ghost predicate Visits(w: Walk, m: nat, c: nat)
    requires ValidWalk(w, m)
  {
    exists j: nat :: Slot(w, m, j) == c
  }

  lemma DivModUnique(x: int, m: int, q: int, r: int)
    requires 0 <= r < m && x == m * q + r
    ensures x / m == q && x % m == r
  {
    var d := q - x / m;
    assert m * d == x % m - r by {
      assert x == m * (x / m) + x % m;
      assert m * d == m * q - m * (x / m);
    }
    MulBeyond(m, d);
  }

  lemma MulMono(m: int, a: int, b: int)
    requires 0 <= m && a <= b
    ensures m * a <= m * b
  {
  }

  lemma MulBeyond(m: int, d: int)
    requires 0 <= m
    ensures d >= 1 ==> m * d >= m
    ensures d <= -1 ==> m * d <= -m
  {
  }

  /** Step `j` is at `(offset + j * skip) mod m`. */
  lemma {:induction false} SlotFormula(w: Walk, m: nat, j: nat)
    requires ValidWalk(w, m)
    ensures Slot(w, m, j) == (w.offset + j * w.skip) % m
  {
    if j == 0 {
      DivModUnique(w.offset, m, 0, w.offset);
    } else {
      SlotFormula(w, m, j - 1);
      var x := w.offset + (j - 1) * w.skip;
      assert x + w.skip == w.offset + j * w.skip;
      AdvanceIsModular(Slot(w, m, j - 1), w.skip, m);
      ModAdd(x, w.skip, m);
    }
  }

  lemma ModAdd(x: nat, s: nat, m: nat)
    requires 0 < m
    ensures (x % m + s) % m == (x + s) % m
  {
    var y := x % m + s;
    assert x + s == m * (x / m + y / m) + y % m by {
      assert x == m * (x / m) + x % m;
      assert y == m * (y / m) + y % m;
      assert m * (x / m + y / m) == m * (x / m) + m * (y / m);
    }
    DivModUnique(x + s, m, x / m + y / m, y % m);
  }

  lemma DivisorOf(d: int, k: int)
    requires d != 0
    ensures Divides(d, d * k)
  {
    if d > 0 {
      DivModUnique(d * k, d, k, 0);
    }
  }

  lemma DividesSum(d: int, x: int, y: int)
    requires 0 < d && Divides(d, x)
    ensures Divides(d, x + y) <==> Divides(d, y)
    ensures Divides(d, x - y) <==> Divides(d, y)
  {
    var q, k, r := x / d, y / d, y % d;
    assert x == d * q && y == d * k + r;
    assert x + y == d * (q + k) + r;
    DivModUnique(x + y, d, q + k, r);
    if r == 0 {
      assert x - y == d * (q - k);
      DivModUnique(x - y, d, q - k, 0);
    } else {
      assert x - y == d * (q - k - 1) + (d - r);
      DivModUnique(x - y, d, q - k - 1, d - r);
    }
  }

  lemma DividesProduct(d: int, x: int, k: int)
    requires 0 < d && Divides(d, x)
    ensures Divides(d, x * k)
  {
    assert x * k == d * (x / d * k) by { assert x == d * (x / d); }
    DivModUnique(x * k, d, x / d * k, 0);
  }

  /** Euclid's algorithm: coprime numbers combine to 1. */
  lemma {:induction false} Bezout(a: nat, b: nat) returns (x: int, y: int)
    requires Coprime(a, b)
    ensures a * x + b * y == 1
    decreases b
  {
    if b == 0 {
      assert a != 0 by { assert Divides(2, 0); }
      assert a >= 2 ==> Divides(a, a);
      assert a < 2;
      x, y := 1, 0;
    } else {
      var q, r := a / b, a % b;
      assert a == b * q + r;
      RemainderCoprime(a, b);
      var u, v := Bezout(b, r);
      x, y := v, u - q * v;
      assert a * v + b * (u - q * v) == b * u + r * v by {
        assert a * v == b * q * v + r * v;
        assert b * (u - q * v) == b * u - b * q * v;
      }
    }
  }

  lemma RemainderCoprime(a: nat, b: nat)
    requires 0 < b && Coprime(a, b)
    ensures Coprime(b, a % b)
  {
    forall d | 2 <= d && Divides(d, b) ensures !Divides(d, a % b) {
      assert a == b * (a / b) + a % b;
      DividesProduct(d, b, a / b);
      DividesSum(d, b * (a / b), a % b);
    }
  }

  /** A number that divides a product and shares no divisor with one factor divides the other. */
  lemma CoprimeDividesFactor(m: nat, a: nat, b: nat)
    requires 0 < m && Coprime(a, m) && Divides(m, b * a)
    ensures Divides(m, b)
  {
    var x, y := Bezout(a, m);
    assert b == (b * a) * x + m * (b * y) by {
      assert b == b * (a * x + m * y);
      assert b * (a * x + m * y) == (b * a) * x + m * (b * y);
    }
    DividesProduct(m, b * a, x);
    DivisorOf(m, b * y);
    DividesSum(m, (b * a) * x, m * (b * y));
  }

  lemma PrimeCoprime(m: int, a: int)
    requires Prime(m) && 0 < a < m
    ensures Coprime(a, m)
  {
    forall d | 2 <= d && Divides(d, a) ensures !Divides(d, m) {
      if d > a { DivModUnique(a, d, 0, a); }
    }
  }

  /** When the skip is coprime to the size, two different steps of one cycle visit different slots. */
  lemma SlotsDistinct(w: Walk, m: nat, i: nat, j: nat)
    requires ValidWalk(w, m) && Coprime(w.skip, m) && i < j < m
    ensures Slot(w, m, i) != Slot(w, m, j)
  {
    if Slot(w, m, i) == Slot(w, m, j) {
      SlotFormula(w, m, i);
      SlotFormula(w, m, j);
      EqualResidues(w.offset + i * w.skip, w.offset + j * w.skip, m);
      StepsApart(w.offset, w.skip, i, j);
      CoprimeDividesFactor(m, w.skip, j - i);
      DivModUnique(j - i, m, 0, j - i);
    }
  }

  lemma StepsApart(o: int, s: int, i: int, j: int)
    ensures (o + j * s) - (o + i * s) == (j - i) * s
  {
  }

  lemma ModShift(x: int, m: int, s: int)
    requires 0 < m
    ensures (x + m * s) % m == x % m
  {
    assert x + m * s == m * (x / m + s) + x % m by {
      assert x == m * (x / m) + x % m;
      assert m * (x / m + s) == m * (x / m) + m * s;
    }
    DivModUnique(x + m * s, m, x / m + s, x % m);
  }

  /** A walk repeats itself after one cycle. */
  lemma SlotPeriod(w: Walk, m: nat, j: nat)
    requires ValidWalk(w, m)
    ensures Slot(w, m, j + m) == Slot(w, m, j)
  {
    SlotFormula(w, m, j);
    SlotFormula(w, m, j + m);
    Spread(j, m, w.skip);
    ModShift(w.offset + j * w.skip, m, w.skip);
  }

  lemma Spread(j: int, m: int, s: int)
    ensures (j + m) * s == j * s + m * s
  {
  }

  lemma EqualResidues(x: int, y: int, m: int)
    requires 0 < m
    ensures x % m == y % m ==> Divides(m, y - x)
  {
    if x % m == y % m {
      assert y - x == m * (y / m - x / m) by {
        assert x == m * (x / m) + x % m && y == m * (y / m) + y % m;
        assert m * (y / m - x / m) == m * (y / m) - m * (x / m);
      }
      DivModUnique(y - x, m, y / m - x / m, 0);
    }
  }

  ghost function Visited(w: Walk, m: nat, k: nat): (s: set<nat>)
    requires ValidWalk(w, m)
  {
    set j: nat | j < k :: Slot(w, m, j)
  }

  lemma {:induction false} VisitedSize(w: Walk, m: nat, k: nat)
    requires ValidWalk(w, m) && Coprime(w.skip, m) && k <= m
    ensures |Visited(w, m, k)| == k
  {
    if k > 0 {
      VisitedSize(w, m, k - 1);
      var before, c := Visited(w, m, k - 1), Slot(w, m, k - 1);
      assert Visited(w, m, k) == before + {c};
      assert c !in before by {
        forall j: nat | j < k - 1 ensures Slot(w, m, j) != c {
          SlotsDistinct(w, m, j, k - 1);
        }
      }
    }
  }

  lemma SubsetOfSameSize<T>(a: set<T>, b: set<T>)
    requires a <= b && |a| == |b|
    ensures a == b
  {
    assert b == a + (b - a);
    assert b - a == {};
  }

  /** One cycle of such a walk is a permutation: it reaches every slot. */
  lemma WalkReaches(w: Walk, m: nat, c: nat) returns (j: nat)
    requires ValidWalk(w, m) && Coprime(w.skip, m) && c < m
    ensures j < m && Slot(w, m, j) == c
  {
    VisitedSize(w, m, m);
    assert Visited(w, m, m) <= Below(m);
    SubsetOfSameSize(Visited(w, m, m), Below(m));
    assert c in Visited(w, m, m);
    j :| 0 <= j < m && Slot(w, m, j) == c;
  }

  lemma {:induction false} DivisorConfinesWalk(d: nat, w: Walk, m: nat, j: nat)
    requires ValidWalk(w, m) && 0 < d && Divides(d, w.skip) && Divides(d, m)
    ensures Divides(d, Slot(w, m, j) - w.offset)
  {
    if j > 0 {
      DivisorConfinesWalk(d, w, m, j - 1);
      var x := Slot(w, m, j - 1) - w.offset;
      DividesSum(d, x, w.skip);
      DividesSum(d, x + w.skip, m);
    }
  }

  /** A walk reaches every slot exactly when its skip is coprime to the size. */
  lemma ReachesEverySlotIffCoprime(w: Walk, m: nat)
    requires ValidWalk(w, m)
    ensures Coprime(w.skip, m) <==> forall c: nat :: c < m ==> Visits(w, m, c)
  {
    if Coprime(w.skip, m) {
      forall c: nat | c < m ensures Visits(w, m, c) {
        var j := WalkReaches(w, m, c);
      }
    } else {
      var d :| 2 <= d && Divides(d, w.skip) && Divides(d, m);
      var c: nat := if w.offset + 1 < m then w.offset + 1 else w.offset - 1;
      forall j: nat ensures Slot(w, m, j) != c {
        DivisorConfinesWalk(d, w, m, j);
        DivModUnique(1, d, 0, 1);
        DivModUnique(-1, d, -1, d - 1);
      }
      assert !Visits(w, m, c);
    }
  }

  /** The documented "must be a prime number" is exactly what all walks need: the
      sizes for which every walk reaches every slot are the primes. */
  lemma EveryWalkReachesEverySlotIffPrime(m: nat)
    requires 2 <= m
    ensures Prime(m) <==>
      forall w: Walk, c: nat :: ValidWalk(w, m) && c < m ==> Visits(w, m, c)
  {
    if Prime(m) {
      forall w: Walk, c: nat | ValidWalk(w, m) && c < m ensures Visits(w, m, c) {
        PrimeCoprime(m, w.skip);
        var j := WalkReaches(w, m, c);
      }
    } else {
      var d :| 2 <= d < m && Divides(d, m);
      assert Divides(d, d);
      ReachesEverySlotIffCoprime(Walk(0, d), m);
    }
  }

  /** The default Maglev table size, 65537, is prime. */
  lemma DefaultTableSizePrime()
    ensures Prime(65537)
  {
    forall d | 2 <= d < 65537 ensures !Divides(d, 65537) {
      var e := 65537 / d;
      if d < 257 {
        NoSmallDivisor(d);
      } else if 2 <= e < 257 {
        NoSmallDivisor(e);
        if 65537 == d * e { DivModUnique(65537, e, d, 0); }
      } else {
        MulMono(257, 257, d);
        if e >= 257 { MulMono(d, 257, e); }
      }
    }
  }

  lemma NoSmallDivisor(d: nat)
    requires 2 <= d < 257
    ensures 65537 % d != 0
  {
  }
}
