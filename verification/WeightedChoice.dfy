/** Weighted random choice of a destination in `uint32` arithmetic: how many draws select each position. */
module WeightedChoice {
  import opened Basics
  import opened Primes

  /** `DivideByZero` is the run-time panic of a remainder by a total that wrapped to zero. */
  datatype Choice = Nothing | Chosen(i: nat) | DivideByZero

  /** The mathematical sum of the first `k` weights. */
  function Prefix(ws: seq<uint32>, k: nat): nat
    requires k <= |ws|
  {
    if k == 0 then 0 else Prefix(ws, k - 1) + ws[k - 1]
  }

  function Sum(ws: seq<uint32>): nat {
    Prefix(ws, |ws|)
  }

  /** Addition of `uint32` values, which wraps. */
  function Add(a: uint32, b: uint32): uint32 {
    if a + b < UINT32 then a + b else a + b - UINT32
  }

  /** The running sum as the code computes it, wrapping at every addition. */
  function Wrapped(ws: seq<uint32>, k: nat): uint32
    requires k <= |ws|
  {
    if k == 0 then 0 else Add(Wrapped(ws, k - 1), ws[k - 1])
  }

  lemma {:induction false} WrappedIsSum(ws: seq<uint32>, k: nat)
    requires k <= |ws|
    ensures Wrapped(ws, k) == Prefix(ws, k) % UINT32
  {
    if k > 0 {
      WrappedIsSum(ws, k - 1);
    }
  }

  function Total(ws: seq<uint32>): nat {
    Wrapped(ws, |ws|)
  }

  /** The cumulative weight up to and including position `j`. */
  function Through(ws: seq<uint32>, j: nat): nat
    requires j < |ws|
  {
    Wrapped(ws, j + 1)
  }

  /** The first position at or after `i` whose cumulative weight exceeds `r`; the length if none. */
  function FirstAbove(ws: seq<uint32>, r: nat, i: nat): (k: nat)
    requires i <= |ws|
    ensures i <= k <= |ws|
    ensures k < |ws| ==> r < Through(ws, k)
    ensures forall j :: i <= j < k ==> r >= Through(ws, j)
    decreases |ws| - i
  {
    if i == |ws| || r < Through(ws, i) then i else FirstAbove(ws, r, i + 1)
  }

  /** The position that residue `r` selects; the last one when the walk falls through. */
  function Position(ws: seq<uint32>, r: nat): (k: nat)
    requires ws != []
    ensures k < |ws|
  {
    var k := FirstAbove(ws, r, 0);
    if k < |ws| then k else |ws| - 1
  }

  /** `draw` stands for `rand.Uint32()` and `index` for `rand.Intn(len(dests))`. */
  method SelectDestination(ws: seq<uint32>, draw: uint32, index: nat) returns (c: Choice)
    requires ws != [] ==> index < |ws|
    ensures ws == [] ==> c == Nothing
    ensures |ws| == 1 ==> c == Chosen(0)
    ensures |ws| > 1 && Sum(ws) == 0 ==> c == Chosen(index)
    ensures |ws| > 1 && Sum(ws) > 0 ==>
      if Total(ws) == 0 then c == DivideByZero else c == Chosen(Position(ws, draw % Total(ws)))
  {
    if |ws| == 0 {
      return Nothing;
    }
    if |ws| == 1 {
      return Chosen(0);
    }
    var total, allZero := 0, true;
    for i := 0 to |ws|
      invariant total == Wrapped(ws, i)
      invariant allZero <==> Prefix(ws, i) == 0
    {
      total := Add(total, ws[i]);
      if ws[i] > 0 {
        allZero := false;
      }
    }
    if allZero {
      return Chosen(index);
    }
    if total == 0 {
      return DivideByZero;
    }
    var r := draw % total;
    var cumulative := 0;
    for i := 0 to |ws|
      invariant cumulative == Wrapped(ws, i)
      invariant FirstAbove(ws, r, 0) == FirstAbove(ws, r, i)
    {
      cumulative := Add(cumulative, ws[i]);
      if r < cumulative {
        return Chosen(i);
      }
    }
    return Chosen(|ws| - 1);
  }

  // ----- Counting the residues -----

  ghost function Residues(ws: seq<uint32>, i: nat): set<nat>
    requires ws != []
  {
    set r: nat | r in Below(Total(ws)) && Position(ws, r) == i
  }

  lemma {:induction false} PrefixMonotone(ws: seq<uint32>, i: nat, j: nat)
    requires i <= j <= |ws|
    ensures Prefix(ws, i) <= Prefix(ws, j)
  {
    if i < j {
      PrefixMonotone(ws, i, j - 1);
    }
  }

  /** The last cumulative weight is the total itself, overflowing or not, so the final fallback is never reached. */
  lemma FallbackUnreachable(ws: seq<uint32>, r: nat)
    requires ws != [] && r < Total(ws)
    ensures FirstAbove(ws, r, 0) < |ws|
  {
    assert Through(ws, |ws| - 1) == Total(ws);
  }

  /** A zero-weight position is never chosen, overflow or not: it repeats the cumulative weight before it. */
  lemma ZeroWeightNeverChosen(ws: seq<uint32>, r: nat)
    requires ws != [] && r < Total(ws)
    ensures ws[Position(ws, r)] > 0
  {
    FallbackUnreachable(ws, r);
    var k := FirstAbove(ws, r, 0);
    assert k > 0 ==> r >= Through(ws, k - 1);
    assert Through(ws, k) == Add(Wrapped(ws, k), ws[k]);
  }

  /** Without overflow, residue `r` selects the position whose cumulative interval holds it. */
  lemma PositionIsInterval(ws: seq<uint32>, r: nat, i: nat)
    requires ws != [] && Sum(ws) < UINT32 && r < Sum(ws) && i < |ws|
    ensures Position(ws, r) == i <==> Prefix(ws, i) <= r < Prefix(ws, i + 1)
  {
    forall j | 0 <= j < |ws| ensures Through(ws, j) == Prefix(ws, j + 1) {
      PrefixMonotone(ws, j + 1, |ws|);
      WrappedIsSum(ws, j + 1);
    }
    WrappedIsSum(ws, |ws|);
    FallbackUnreachable(ws, r);
    var k := FirstAbove(ws, r, 0);
    assert k > 0 ==> r >= Through(ws, k - 1);
    if i < k {
      PrefixMonotone(ws, i + 1, k);
    } else if k < i {
      PrefixMonotone(ws, k + 1, i);
    }
  }

  ghost function Interval(lo: nat, hi: nat): (s: set<nat>)
    requires lo <= hi
    ensures forall r: nat :: r in s <==> lo <= r < hi
    ensures |s| == hi - lo
  {
    if lo == hi then {} else Interval(lo, hi - 1) + {hi - 1}
  }

  lemma ResiduesWithoutOverflow(ws: seq<uint32>, i: nat)
    requires ws != [] && Sum(ws) < UINT32 && i < |ws|
    ensures ExactShare(ws, i)
  {
    var residues, interval := Residues(ws, i), Interval(Prefix(ws, i), Prefix(ws, i + 1));
    forall r: nat ensures r in residues <==> r in interval {
      ResidueInInterval(ws, r, i);
    }
    assert residues == interval;
  }

  lemma ResidueInInterval(ws: seq<uint32>, r: nat, i: nat)
    requires ws != [] && Sum(ws) < UINT32 && i < |ws|
    ensures r in Residues(ws, i) <==> Prefix(ws, i) <= r < Prefix(ws, i + 1)
  {
    PrefixMonotone(ws, i + 1, |ws|);
    WrappedIsSum(ws, |ws|);
    if r < Sum(ws) {
      PositionIsInterval(ws, r, i);
    }
  }

  /** Residues selecting one of the first `k` positions. */
  ghost function Selecting(ws: seq<uint32>, k: nat): set<nat>
    requires ws != []
  {
    set r: nat | r in Below(Total(ws)) && Position(ws, r) < k
  }

  lemma SelectingNone(ws: seq<uint32>)
    requires ws != []
    ensures |Selecting(ws, 0)| == 0
  {
    assert Selecting(ws, 0) == {};
  }

  lemma SelectingSplits(ws: seq<uint32>, k: nat)
    requires ws != []
    ensures |Selecting(ws, k + 1)| == |Selecting(ws, k)| + |Residues(ws, k)|
  {
    var a, b := Selecting(ws, k), Residues(ws, k);
    assert Selecting(ws, k + 1) == a + b;
    assert a !! b;
  }

  /** Position `i` is selected by exactly its weight of the residues. */
  ghost predicate ExactShare(ws: seq<uint32>, i: nat)
    requires i < |ws|
  {
    |Residues(ws, i)| == ws[i]
  }

  /** A count that grows by the weights is their sum. */
  lemma {:induction false} SharesAddUp(ws: seq<uint32>, count: nat -> nat, k: nat)
    requires k <= |ws| && count(0) == 0 && forall i :: 0 <= i < |ws| ==> count(i + 1) == count(i) + ws[i]
    ensures count(k) == Prefix(ws, k)
  {
    if k > 0 {
      SharesAddUp(ws, count, k - 1);
      assert count(k - 1 + 1) == count(k - 1) + ws[k - 1];
    }
  }

  lemma ExactSharesSelectSum(ws: seq<uint32>)
    requires ws != [] && forall i :: 0 <= i < |ws| ==> ExactShare(ws, i)
    ensures |Selecting(ws, |ws|)| == Sum(ws)
  {
    var count: nat -> nat := k => |Selecting(ws, k)|;
    SelectingNone(ws);
    forall i | 0 <= i < |ws| ensures count(i + 1) == count(i) + ws[i] {
      SelectingSplits(ws, i);
      assert ExactShare(ws, i);
    }
    SharesAddUp(ws, count, |ws|);
  }

  /** The choice is proportional to the weights exactly when they do not overflow: every position `i` is
      selected by exactly `weight_i` of the `total` residues if and only if the sum is below 2^32. */
  lemma ExactSharesIffNoOverflow(ws: seq<uint32>)
    requires ws != []
    ensures (forall i :: 0 <= i < |ws| ==> ExactShare(ws, i)) <==> Sum(ws) < UINT32
  {
    if Sum(ws) < UINT32 {
      forall i | 0 <= i < |ws| ensures ExactShare(ws, i) {
        ResiduesWithoutOverflow(ws, i);
      }
    } else {
      WrappedIsSum(ws, |ws|);
      assert Selecting(ws, |ws|) == Below(Total(ws));
      if forall i :: 0 <= i < |ws| ==> ExactShare(ws, i) {
        ExactSharesSelectSum(ws);
      }
    }
  }

  // ----- Counting the draws -----

  /** The numbers below `n` that satisfy `f`. */
  ghost function Hits(f: nat -> bool, n: nat): (s: set<nat>)
    ensures forall x: nat :: x in s <==> x < n && f(x)
  {
    if n == 0 then {} else Hits(f, n - 1) + if f(n - 1) then {n - 1} else {}
  }

  function Count(f: nat -> bool, n: nat): nat {
    if n == 0 then 0 else Count(f, n - 1) + if f(n - 1) then 1 else 0
  }

  lemma {:induction false} HitsCounted(f: nat -> bool, n: nat)
    ensures |Hits(f, n)| == Count(f, n)
  {
    if n > 0 {
      HitsCounted(f, n - 1);
      assert n - 1 !in Hits(f, n - 1);
    }
  }

  lemma {:induction false} CountAgrees(f: nat -> bool, g: nat -> bool, n: nat)
    requires forall x: nat :: x < n ==> f(x) == g(x)
    ensures Count(f, n) == Count(g, n)
  {
    if n > 0 {
      CountAgrees(f, g, n - 1);
    }
  }

  function RemainderIn(t: nat, lo: nat, hi: nat): nat -> bool
    requires t > 0
  {
    x => lo <= x % t < hi
  }

  /** How many of the first `r` residues lie in `[lo, hi)`. */
  function Within(lo: nat, hi: nat, r: nat): nat
    requires lo <= hi
  {
    if r <= lo then 0 else if r <= hi then r - lo else hi - lo
  }

  lemma {:induction false} CountCycles(t: nat, lo: nat, hi: nat, n: nat, q: nat, r: nat)
    requires 0 < t && lo <= hi <= t && r <= t && n == t * q + r
    ensures Count(RemainderIn(t, lo, hi), n) == (hi - lo) * q + Within(lo, hi, r)
    decreases q, r
  {
    if r > 0 {
      CountCycles(t, lo, hi, n - 1, q, r - 1);
      DivModUnique(n - 1, t, q, r - 1);
    } else if q > 0 {
      assert t * q == t * (q - 1) + t;
      assert (hi - lo) * q == (hi - lo) * (q - 1) + (hi - lo);
      CountCycles(t, lo, hi, n, q - 1, t);
    }
  }

  /** Whether a draw selects position `i`. */
  function Selects(ws: seq<uint32>, i: nat): nat -> bool
    requires ws != [] && Total(ws) > 0
  {
    draw => Position(ws, draw % Total(ws)) == i
  }

  lemma SelectsByRemainder(ws: seq<uint32>, i: nat, draw: nat)
    requires ws != [] && 0 < Sum(ws) < UINT32 && i < |ws|
    ensures Total(ws) == Sum(ws)
    ensures Selects(ws, i)(draw) == RemainderIn(Sum(ws), Prefix(ws, i), Prefix(ws, i + 1))(draw)
  {
    WrappedIsSum(ws, |ws|);
    PositionIsInterval(ws, draw % Sum(ws), i);
  }

  lemma DrawsCounted(ws: seq<uint32>, i: nat, n: nat)
    requires ws != [] && 0 < Sum(ws) < UINT32 && i < |ws|
    ensures Total(ws) == Sum(ws)
    ensures |Hits(Selects(ws, i), n)| == Count(RemainderIn(Sum(ws), Prefix(ws, i), Prefix(ws, i + 1)), n)
  {
    SelectsByRemainder(ws, i, 0);
    var f, g := Selects(ws, i), RemainderIn(Sum(ws), Prefix(ws, i), Prefix(ws, i + 1));
    HitsCounted(f, n);
    forall x: nat | x < n ensures f(x) == g(x) {
      SelectsByRemainder(ws, i, x);
    }
    CountAgrees(f, g, n);
  }

  /** `weight` for every full cycle of `t` draws, plus its residues in the last one. */
  function DrawShare(t: nat, lo: nat, weight: nat, n: nat): nat
    requires t > 0
  {
    weight * (n / t) + Within(lo, lo + weight, n % t)
  }

  lemma CountQuotient(t: nat, lo: nat, weight: nat, n: nat)
    requires 0 < t && lo + weight <= t
    ensures Count(RemainderIn(t, lo, lo + weight), n) == DrawShare(t, lo, weight, n)
  {
    assert n == t * (n / t) + n % t;
    CountCycles(t, lo, lo + weight, n, n / t, n % t);
  }

  /** Without overflow, of `n` draws exactly `weight * (n / total)` select position `i`, plus one for each of its
      residues below `n mod total`. The generator has `n` = 2^32, so the remainder favours the first positions. */
  lemma ExactDraws(ws: seq<uint32>, i: nat, n: nat)
    requires ws != [] && 0 < Sum(ws) < UINT32 && i < |ws|
    ensures Total(ws) == Sum(ws)
    ensures |Hits(Selects(ws, i), n)| == DrawShare(Sum(ws), Prefix(ws, i), ws[i], n)
  {
    DrawsCounted(ws, i, n);
    PrefixMonotone(ws, i + 1, |ws|);
    assert Prefix(ws, i + 1) == Prefix(ws, i) + ws[i];
    CountQuotient(Sum(ws), Prefix(ws, i), ws[i], n);
  }

  /** With overflow the total can wrap to zero although weights are positive: the remainder then panics. */
  lemma WrappedTotal()
    ensures var ws: seq<uint32> := [0x8000_0000, 0x8000_0000]; Sum(ws) > 0 && Total(ws) == 0
  {
    var ws: seq<uint32> := [0x8000_0000, 0x8000_0000];
    assert Prefix(ws, 1) == 0x8000_0000;
    WrappedIsSum(ws, 2);
  }
}
