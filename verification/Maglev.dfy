/** Maglev consistent hashing: the lookup table that `MaglevBalancer` fills in place,
    and the turn-by-turn specification it meets. */
module Maglev {
  import opened Basics
  import opened Primes

  const FREE := -1
  const DEFAULT_TABLE_SIZE := 65537

  ghost predicate ValidWalks(ws: seq<Walk>, m: nat) {
    |ws| > 0 && forall i :: 0 <= i < |ws| ==> ValidWalk(ws[i], m)
  }

  // ----- Specification: destinations in turn take their first free slot -----

  /** Step `j` is where walk `w` first meets a free slot of `t`. */
  ghost predicate IsFirstFree(w: Walk, t: seq<int>, j: nat)
    requires ValidWalk(w, |t|)
  {
    t[Slot(w, |t|, j)] == FREE && AllTaken(w, t, j)
  }

  ghost predicate AllTaken(w: Walk, t: seq<int>, k: nat)
    requires ValidWalk(w, |t|)
  {
    forall j: nat :: j < k ==> t[Slot(w, |t|, j)] != FREE
  }

  /** Destination `i` takes the first free slot that its walk meets from step `j` of one cycle on. */
  function Claim(w: Walk, t: seq<int>, i: nat, j: nat): (t': seq<int>)
    requires ValidWalk(w, |t|)
    ensures |t'| == |t|
    decreases |t| - j
  {
    if j >= |t| then t
    else if t[Slot(w, |t|, j)] == FREE then t[Slot(w, |t|, j) := i]
    else Claim(w, t, i, j + 1)
  }

  lemma {:induction false} ClaimFirstFree(w: Walk, t: seq<int>, i: nat, j: nat, first: nat)
    requires ValidWalk(w, |t|) && j <= first < |t| && IsFirstFree(w, t, first)
    ensures Claim(w, t, i, j) == t[Slot(w, |t|, first) := i]
    decreases first - j
  {
    if j < first {
      ClaimFirstFree(w, t, i, j + 1, first);
    }
  }

  /** The walk meets a free slot within one cycle. */
  ghost predicate Meets(w: Walk, t: seq<int>)
    requires ValidWalk(w, |t|)
  {
    exists j: nat :: j < |t| && t[Slot(w, |t|, j)] == FREE
  }

  lemma FirstFreeExists(w: Walk, t: seq<int>) returns (j: nat)
    requires ValidWalk(w, |t|) && Meets(w, t)
    ensures j < |t| && IsFirstFree(w, t, j)
  {
    var hit: nat :| hit < |t| && t[Slot(w, |t|, hit)] == FREE;
    j := 0;
    while t[Slot(w, |t|, j)] != FREE
      invariant j <= hit && AllTaken(w, t, j)
      decreases hit - j
    {
      j := j + 1;
    }
  }

  /** The probe ends exactly when it ends within one cycle: a walk that meets no free slot there never will. */
  lemma ProbeEndsIffMeets(w: Walk, t: seq<int>)
    requires ValidWalk(w, |t|)
    ensures Meets(w, t) <==> exists j: nat :: t[Slot(w, |t|, j)] == FREE
  {
    if j: nat :| t[Slot(w, |t|, j)] == FREE {
      var i: nat := j;
      while i >= |t|
        invariant t[Slot(w, |t|, i)] == FREE
      {
        i := i - |t|;
        SlotPeriod(w, |t|, i);
      }
    }
  }

  /** With a skip coprime to the size the walk meets whatever slot is free. */
  lemma CoprimeMeets(w: Walk, t: seq<int>)
    requires ValidWalk(w, |t|) && Coprime(w.skip, |t|) && FREE in t
    ensures Meets(w, t)
  {
    var c: nat :| c < |t| && t[c] == FREE;
    var j := WalkReaches(w, |t|, c);
  }

  lemma ClaimCounts(w: Walk, t: seq<int>, i: nat)
    requires ValidWalk(w, |t|) && Meets(w, t)
    ensures multiset(Claim(w, t, i, 0)) == multiset(t)[FREE := multiset(t)[FREE] - 1][i := multiset(t)[i] + 1]
  {
    var j := FirstFreeExists(w, t);
    ClaimFirstFree(w, t, i, 0, j);
  }

  /** Whose turn it is: the `n` destinations go round. */
  function Owner(k: nat, n: nat): (i: nat)
    requires 0 < n
    ensures i < n
  {
    if k == 0 || Owner(k - 1, n) + 1 == n then 0 else Owner(k - 1, n) + 1
  }

  /** How many of the first `k` turns belong to destination `i`. */
  function Share(k: nat, n: nat, i: nat): nat
    requires 0 < n
  {
    if k == 0 then 0 else Share(k - 1, n, i) + if Owner(k - 1, n) == i then 1 else 0
  }

  /** The table after `k` turns: at each turn its owner takes the first free slot of its
      own walk. */
  function Turns(ws: seq<Walk>, m: nat, k: nat): (t: seq<int>)
    requires ValidWalks(ws, m)
    ensures |t| == m
  {
    if k == 0 then seq(m, _ => FREE)
    else
      var i := Owner(k - 1, |ws|);
      Claim(ws[i], Turns(ws, m, k - 1), i, 0)
  }

  lemma {:induction false} AllFree(m: nat)
    ensures multiset(seq(m, _ => FREE))[FREE] == m
  {
    if m > 0 {
      AllFree(m - 1);
      assert seq(m, _ => FREE) == seq(m - 1, _ => FREE) + [FREE];
    }
  }

  /** Each of the first `k` turns meets a free slot. */
  ghost predicate FillsUpTo(ws: seq<Walk>, m: nat, k: nat)
    requires ValidWalks(ws, m)
  {
    k == 0 || (FillsUpTo(ws, m, k - 1) && Meets(ws[Owner(k - 1, |ws|)], Turns(ws, m, k - 1)))
  }

  /** Every turn meets a free slot, which is what the filling needs in order to end. */
  ghost predicate Fills(ws: seq<Walk>, m: nat)
    requires ValidWalks(ws, m)
  {
    FillsUpTo(ws, m, m)
  }

  lemma {:induction false} FillsBefore(ws: seq<Walk>, m: nat, k: nat, n: nat)
    requires ValidWalks(ws, m) && k <= n && FillsUpTo(ws, m, n)
    ensures FillsUpTo(ws, m, k)
    ensures k < n ==> Meets(ws[Owner(k, |ws|)], Turns(ws, m, k))
  {
    if k < n - 1 {
      FillsBefore(ws, m, k, n - 1);
    }
  }

  /** Skips coprime to the size always fill the table. */
  lemma {:induction false} CoprimeFills(ws: seq<Walk>, m: nat, k: nat)
    requires ValidWalks(ws, m) && k <= m && forall i :: 0 <= i < |ws| ==> Coprime(ws[i].skip, m)
    ensures FillsUpTo(ws, m, k)
  {
    if k > 0 {
      CoprimeFills(ws, m, k - 1);
      FreeSlots(ws, m, k - 1);
      CoprimeMeets(ws[Owner(k - 1, |ws|)], Turns(ws, m, k - 1));
    }
  }

  /** A prime-sized table is filled whatever the destinations. */
  lemma PrimeFills(ws: seq<Walk>, m: nat)
    requires Prime(m) && ValidWalks(ws, m)
    ensures Fills(ws, m)
  {
    forall i | 0 <= i < |ws| ensures Coprime(ws[i].skip, m) {
      PrimeCoprime(m, ws[i].skip);
    }
    CoprimeFills(ws, m, m);
  }

  lemma {:induction false} TakenIsVisited(w: Walk, m: nat, k: nat, c: nat)
    requires ValidWalk(w, m) && FillsUpTo([w], m, k) && c < m && Turns([w], m, k)[c] != FREE
    ensures Visits(w, m, c)
  {
    if k > 0 {
      var t := Turns([w], m, k - 1);
      var j := FirstFreeExists(w, t);
      ClaimFirstFree(w, t, 0, 0, j);
      if c != Slot(w, m, j) {
        TakenIsVisited(w, m, k - 1, c);
      }
    }
  }

  /** A single destination fills the table exactly when its skip is coprime to the size. */
  lemma SingleFillsIffCoprime(w: Walk, m: nat)
    requires ValidWalk(w, m)
    ensures Fills([w], m) <==> Coprime(w.skip, m)
  {
    if Coprime(w.skip, m) {
      CoprimeFills([w], m, m);
    }
    if Fills([w], m) {
      var t := Turns([w], m, m);
      FreeSlots([w], m, m);
      forall c: nat | c < m ensures Visits(w, m, c) {
        assert t[c] in multiset(t);
        TakenIsVisited(w, m, m, c);
      }
      ReachesEverySlotIffCoprime(w, m);
    }
  }

  /** After `k` turns `m - k` slots are free. */
  lemma {:induction false} FreeSlots(ws: seq<Walk>, m: nat, k: nat)
    requires ValidWalks(ws, m) && k <= m && FillsUpTo(ws, m, k)
    ensures multiset(Turns(ws, m, k))[FREE] == m - k
    ensures k < m ==> FREE in Turns(ws, m, k)
  {
    if k == 0 {
      AllFree(m);
    } else {
      FreeSlots(ws, m, k - 1);
      var i := Owner(k - 1, |ws|);
      ClaimCounts(ws[i], Turns(ws, m, k - 1), i);
    }
  }

  /** Turn `n * q + r` belongs to destination `r`, and the turns before it hold `q` of each
      destination, plus one of destination `i` when `i < r`. */
  lemma {:induction false} ExactShare(k: nat, n: nat, q: nat, r: nat, i: nat)
    requires i < n && r < n && k == n * q + r
    ensures Owner(k, n) == r
    ensures Share(k, n, i) == q + if i < r then 1 else 0
  {
    if r > 0 {
      ExactShare(k - 1, n, q, r - 1, i);
    } else if q > 0 {
      assert n * q == n * (q - 1) + n;
      ExactShare(k - 1, n, q - 1, n - 1, i);
    }
  }

  lemma ShareQuotient(m: nat, n: nat, i: nat)
    requires i < n
    ensures Share(m, n, i) == m / n + if i < m % n then 1 else 0
  {
    var q, r := m / n, m % n;
    assert m == n * q + r;
    ExactShare(m, n, q, r, i);
  }

  /** Fairness of every prefix of the filling: destination `i` owns exactly the slots of its turns. */
  lemma {:induction false} SlotsOwned(ws: seq<Walk>, m: nat, k: nat, i: nat)
    requires ValidWalks(ws, m) && k <= m && FillsUpTo(ws, m, k) && i < |ws|
    ensures multiset(Turns(ws, m, k))[i] == Share(k, |ws|, i)
  {
    if k == 0 {
      assert i !in Turns(ws, m, 0);
    } else {
      SlotsOwned(ws, m, k - 1, i);
      FreeSlots(ws, m, k - 1);
      var o := Owner(k - 1, |ws|);
      ClaimCounts(ws[o], Turns(ws, m, k - 1), o);
    }
  }

  /** In a full table destination `i` owns `m / n` slots, plus one when `i < m % n`, so any
      two shares differ by at most one. */
  lemma ExactShares(ws: seq<Walk>, m: nat, i: nat, j: nat)
    requires ValidWalks(ws, m) && Fills(ws, m) && i < |ws| && j < |ws|
    ensures multiset(Turns(ws, m, m))[i] == m / |ws| + if i < m % |ws| then 1 else 0
    ensures multiset(Turns(ws, m, m))[i] <= multiset(Turns(ws, m, m))[j] + 1
  {
    SlotsOwned(ws, m, m, i);
    SlotsOwned(ws, m, m, j);
    ShareQuotient(m, |ws|, i);
    ShareQuotient(m, |ws|, j);
  }

  /** Every entry of a full table is a destination index. */
  lemma FullTable(ws: seq<Walk>, m: nat, c: nat)
    requires ValidWalks(ws, m) && Fills(ws, m) && c < m
    ensures 0 <= Turns(ws, m, m)[c] < |ws|
  {
    var t := Turns(ws, m, m);
    EntriesInRange(ws, m, m, c);
    FreeSlots(ws, m, m);
    assert t[c] in multiset(t);
  }

  lemma {:induction false} EntriesInRange(ws: seq<Walk>, m: nat, k: nat, c: nat)
    requires ValidWalks(ws, m) && c < m
    ensures FREE <= Turns(ws, m, k)[c] < |ws|
  {
    if k > 0 {
      EntriesInRange(ws, m, k - 1, c);
      var i := Owner(k - 1, |ws|);
      ClaimEntry(ws[i], Turns(ws, m, k - 1), i, 0, c);
    }
  }

  lemma {:induction false} ClaimEntry(w: Walk, t: seq<int>, i: nat, j: nat, c: nat)
    requires ValidWalk(w, |t|) && c < |t|
    ensures Claim(w, t, i, j)[c] == t[c] || Claim(w, t, i, j)[c] == i
    decreases |t| - j
  {
    if j < |t| && t[Slot(w, |t|, j)] != FREE {
      ClaimEntry(w, t, i, j + 1, c);
    }
  }

  // ----- The table without turns: which slot each turn takes -----

  /** Step `j` of the walk of a destination, in closed form. */
  function Probe(offset: nat, skip: nat, m: nat, j: nat): nat
    requires 0 < m
  {
    (offset + j * skip) % m
  }

  /** `c` is the first slot on the walk that is not among those taken before. */
  ghost predicate FirstUntaken(offset: nat, skip: nat, m: nat, before: seq<nat>, c: nat)
    requires 0 < m
  {
    && c !in before
    && exists j: nat :: Probe(offset, skip, m, j) == c && forall i: nat :: i < j ==> Probe(offset, skip, m, i) in before
  }

  lemma ProbeIsSlot(w: Walk, m: nat, j: nat)
    requires ValidWalk(w, m)
    ensures Probe(w.offset, w.skip, m, j) == Slot(w, m, j)
  {
    SlotFormula(w, m, j);
  }

  /** Turn `k` took `taken[k]`. */
  ghost predicate TookTurn(ws: seq<Walk>, t: seq<int>, taken: seq<nat>, k: nat)
    requires |t| > 0 && |ws| > 0 && k < |taken|
  {
    var i := Owner(k, |ws|);
    taken[k] < |t| && t[taken[k]] == i && FirstUntaken(ws[i].offset, ws[i].skip, |t|, taken[..k], taken[k])
  }

  /** The slots taken so far, in the order of the turns. */
  ghost predicate TakenInOrder(ws: seq<Walk>, t: seq<int>, taken: seq<nat>)
    requires |t| > 0 && |ws| > 0
  {
    && (forall c: nat :: c < |t| ==> (t[c] != FREE <==> c in taken))
    && (forall k: nat :: k < |taken| ==> TookTurn(ws, t, taken, k))
  }

  lemma FreeIsUntaken(w: Walk, t: seq<int>, taken: seq<nat>, j: nat)
    requires ValidWalk(w, |t|) && IsFirstFree(w, t, j) && forall c: nat :: c < |t| ==> (t[c] != FREE <==> c in taken)
    ensures FirstUntaken(w.offset, w.skip, |t|, taken, Slot(w, |t|, j))
  {
    ProbeIsSlot(w, |t|, j);
    forall h: nat | h < j ensures Probe(w.offset, w.skip, |t|, h) in taken {
      ProbeIsSlot(w, |t|, h);
    }
  }

  lemma TakenNext(ws: seq<Walk>, t: seq<int>, taken: seq<nat>, j: nat)
    requires ValidWalks(ws, |t|) && |t| > 0 && TakenInOrder(ws, t, taken)
    requires IsFirstFree(ws[Owner(|taken|, |ws|)], t, j)
    ensures var i := Owner(|taken|, |ws|);
      var c := Slot(ws[i], |t|, j);
      TakenInOrder(ws, t[c := i], taken + [c])
  {
    var i := Owner(|taken|, |ws|);
    var c := Slot(ws[i], |t|, j);
    var t', taken' := t[c := i], taken + [c];
    FreeIsUntaken(ws[i], t, taken, j);
    forall k: nat | k < |taken'| ensures TookTurn(ws, t', taken', k) {
      assert taken'[..k] == taken[..k];
      if k < |taken| {
        assert TookTurn(ws, t, taken, k);
      } else {
        assert taken[..k] == taken;
      }
    }
  }

  lemma {:induction false} TurnsInOrder(ws: seq<Walk>, m: nat, k: nat) returns (taken: seq<nat>)
    requires ValidWalks(ws, m) && m > 0 && FillsUpTo(ws, m, k)
    ensures |taken| == k && TakenInOrder(ws, Turns(ws, m, k), taken)
  {
    if k == 0 {
      taken := [];
    } else {
      taken := TurnsInOrder(ws, m, k - 1);
      var i, t := Owner(k - 1, |ws|), Turns(ws, m, k - 1);
      var j := FirstFreeExists(ws[i], t);
      ClaimFirstFree(ws[i], t, i, 0, j);
      TakenNext(ws, t, taken, j);
      taken := taken + [Slot(ws[i], m, j)];
    }
  }

  lemma OwnerIsModular(k: nat, n: nat)
    requires 0 < n
    ensures Owner(k, n) == k % n
  {
    assert k == n * (k / n) + k % n;
    ExactShare(k, n, k / n, k % n, 0);
  }

  // ----- The balancer -----

  /** The answer to a lookup: the random fallback, a destination, or the run-time panic of a table length
      that `uint32` truncates to zero. */
  datatype Pick = Fallback | Picked(id: string) | DivideByZero

  class MaglevBalancer {
    /** The two little-endian halves of the identifier's md5 digest. */
    const digestLow: string -> nat
    const digestHigh: string -> nat
    const tableSize: nat
    var table: array?<int>
    var dests: seq<string>

    constructor (size: int, digestLow: string -> nat, digestHigh: string -> nat)
      ensures 1 <= tableSize == if size <= 0 then 65537 else size
      ensures size <= 0 ==> Prime(tableSize)
      ensures this.digestLow == digestLow && this.digestHigh == digestHigh
      ensures table == null && dests == []
    {
      this.tableSize := if size <= 0 then DEFAULT_TABLE_SIZE else size;
      this.digestLow, this.digestHigh := digestLow, digestHigh;
      this.table, this.dests := null, [];
      DefaultTableSizePrime();
    }

    function WalkOf(id: string): (w: Walk)
      requires 2 <= tableSize
      ensures ValidWalk(w, tableSize)
    {
      Walk(digestLow(id) % tableSize, digestHigh(id) % (tableSize - 1) + 1)
    }

    function WalksOf(ids: seq<string>): (ws: seq<Walk>)
      requires 2 <= tableSize
      ensures |ws| == |ids|
      ensures ids != [] ==> ValidWalks(ws, tableSize)
    {
      seq(|ids|, i requires 0 <= i < |ids| => WalkOf(ids[i]))
    }

    /** The state left by a `Build` over `dests`. */
    ghost predicate Built()
      reads this, table
    {
      && (dests == [] ==> table == null)
      && (dests != [] ==>
            && 2 <= tableSize && Fills(WalksOf(dests), tableSize)
            && table != null && table[..] == Turns(WalksOf(dests), tableSize, tableSize))
    }

    /** Turn `k` is destination `k % n`'s, and it takes the first slot not taken before it on the permutation that
        the two halves of the digest give. */
    ghost predicate TurnTaken(ids: seq<string>, t: seq<int>, taken: seq<nat>, k: nat)
      requires 2 <= tableSize && ids != [] && k < |taken|
    {
      var id := ids[k % |ids|];
      && taken[k] < |t| && t[taken[k]] == k % |ids|
      && FirstUntaken(digestLow(id) % tableSize, digestHigh(id) % (tableSize - 1) + 1, tableSize, taken[..k], taken[k])
    }

    /** Every slot of the table is taken in some turn. */
    ghost predicate FilledInTurn(ids: seq<string>, t: seq<int>, taken: seq<nat>)
      requires 2 <= tableSize && ids != []
    {
      |t| == |taken| == tableSize && forall k: nat :: k < |taken| ==> TurnTaken(ids, t, taken, k)
    }

    lemma TurnsFillTable(ids: seq<string>) returns (taken: seq<nat>)
      requires 2 <= tableSize && ids != [] && Fills(WalksOf(ids), tableSize)
      ensures FilledInTurn(ids, Turns(WalksOf(ids), tableSize, tableSize), taken)
    {
      var ws, m := WalksOf(ids), tableSize;
      var t := Turns(ws, m, m);
      taken := TurnsInOrder(ws, m, m);
      forall k: nat | k < |taken| ensures TurnTaken(ids, t, taken, k) {
        OwnerIsModular(k, |ids|);
        assert TookTurn(ws, t, taken, k);
      }
    }

    /** The filling ends for every list when the size is prime (`PrimeFills`), and for any size when the
        skips are coprime to it (`CoprimeFills`). With a single slot the code divides by zero and panics, after it
        has stored the list. */
    method Build(ids: seq<string>) returns (panicked: bool)
      requires 1 <= tableSize && (ids != [] && 2 <= tableSize ==> Fills(WalksOf(ids), tableSize))
      modifies this
      ensures panicked <==> ids != [] && tableSize == 1
      ensures dests == ids && (if panicked then table == old(table) else Built())
      ensures !panicked && table != null ==> fresh(table)
      ensures !panicked && ids != [] ==> exists taken :: FilledInTurn(ids, table[..], taken)
    {
      var n, m := |ids|, tableSize;
      dests := ids;
      if n == 0 {
        table := null;
        return false;
      }
      if m - 1 == 0 {
        return true;
      }
      table := Fill(WalksOf(ids), m);
      ghost var taken := TurnsFillTable(ids);
      return false;
    }

    /** After a `Build` over a non-empty list the fallback is never taken. */
    method PickByHash(h: uint32) returns (r: Pick)
      requires Built()
      ensures dests == [] ==> r == Fallback
      ensures dests != [] ==>
        var n := tableSize % UINT32;
        if n == 0 then r == DivideByZero
        else
          && table != null && table.Length == tableSize && 0 <= table[h % n] < |dests|
          && r == Picked(dests[table[h % n]])
    {
      if table == null || |dests| == 0 {
        return Fallback;
      }
      var n := table.Length % UINT32;
      if n == 0 {
        return DivideByZero;
      }
      FullTable(WalksOf(dests), tableSize, h % n);
      var idx := table[h % n];
      if idx < 0 || idx >= |dests| {
        return Fallback;
      }
      return Picked(dests[idx]);
    }

    /** The filling loops of `Build`: rounds of turns until every slot is taken. */
    static method Fill(ws: seq<Walk>, m: nat) returns (slots: array<int>)
      requires ValidWalks(ws, m) && Fills(ws, m)
      ensures fresh(slots) && slots[..] == Turns(ws, m, m)
    {
      var n := |ws|;
      slots := new int[m](_ => FREE);
      var next := new nat[n](i requires 0 <= i < n => ws[i].offset);
      ghost var pos := StartOfWalks(ws, slots[..], next[..]);
      var filled := 0;
      assert slots[..] == Turns(ws, m, 0);
      while filled < m
        invariant filled <= m && (filled == m || Owner(filled, n) == 0)
        invariant Resumed(ws, slots[..], next[..], pos)
        invariant slots[..] == Turns(ws, m, filled)
      {
        filled, pos := Round(slots, next, ws, filled, pos);
      }
    }

    /** One pass of the outer filling loop: a turn for each destination, cut short when the
        table is full. */
    static method Round(slots: array<int>, next: array<nat>, ws: seq<Walk>, before: nat, ghost pos: seq<nat>)
      returns (filled: nat, ghost pos': seq<nat>)
      requires ValidWalks(ws, slots.Length) && Fills(ws, slots.Length)
      requires before < slots.Length && Owner(before, |ws|) == 0
      requires Resumed(ws, slots[..], next[..], pos) && slots[..] == Turns(ws, slots.Length, before)
      modifies slots, next
      ensures before < filled <= slots.Length && (filled == slots.Length || Owner(filled, |ws|) == 0)
      ensures Resumed(ws, slots[..], next[..], pos') && slots[..] == Turns(ws, slots.Length, filled)
    {
      filled, pos' := before, pos;
      for i := 0 to |ws|
        invariant before + i == filled < slots.Length && Owner(filled, |ws|) == (if i < |ws| then i else 0)
        invariant Resumed(ws, slots[..], next[..], pos')
        invariant slots[..] == Turns(ws, slots.Length, filled)
      {
        pos' := NextTurn(slots, next, ws, filled, i, pos');
        filled := filled + 1;
        if filled >= slots.Length {
          return;
        }
      }
    }

    /** Turn `filled`, which is destination `i`'s. */
    static method NextTurn(slots: array<int>, next: array<nat>, ws: seq<Walk>, ghost filled: nat, i: nat,
                           ghost pos: seq<nat>)
      returns (ghost pos': seq<nat>)
      requires ValidWalks(ws, slots.Length) && Fills(ws, slots.Length)
      requires filled < slots.Length && Owner(filled, |ws|) == i
      requires Resumed(ws, slots[..], next[..], pos) && slots[..] == Turns(ws, slots.Length, filled)
      modifies slots, next
      ensures Resumed(ws, slots[..], next[..], pos') && slots[..] == Turns(ws, slots.Length, filled + 1)
      ensures Owner(filled + 1, |ws|) == if i + 1 < |ws| then i + 1 else 0
    {
      FillsBefore(ws, slots.Length, filled, slots.Length);
      pos' := TakeTurn(slots, next, ws, i, pos);
    }

    /** One turn of destination `i`: resume its walk at `next[i]` and claim the first free slot. */
    static method TakeTurn(slots: array<int>, next: array<nat>, ws: seq<Walk>, i: nat, ghost pos: seq<nat>)
      returns (ghost pos': seq<nat>)
      requires i < |ws| && ValidWalks(ws, slots.Length) && Meets(ws[i], slots[..])
      requires Resumed(ws, slots[..], next[..], pos)
      modifies slots, next
      ensures slots[..] == Claim(ws[i], old(slots[..]), i, 0)
      ensures Resumed(ws, slots[..], next[..], pos')
    {
      var m := slots.Length;
      ghost var t := slots[..];
      ghost var first := FirstFreeExists(ws[i], t);
      pos' := pos;
      var c := next[i];
      while slots[c] != FREE
        invariant slots[..] == t && Resumed(ws, t, next[..], pos') && c == next[i]
        decreases first - pos'[i]
      {
        Resume(ws, t, next[..], pos', i);
        var d := AddModulo(c, ws[i].skip, m);
        next[i] := d;
        pos' := pos'[i := pos'[i] + 1];
        c := d;
      }
      ClaimFirstFree(ws[i], t, i, 0, pos'[i]);
      slots[c] := i;
      Claimed(ws, t, next[..], pos', i);
      Resume(ws, slots[..], next[..], pos', i);
      var d := AddModulo(c, ws[i].skip, m);
      next[i] := d;
      pos' := pos'[i := pos'[i] + 1];
    }

    static method AddModulo(c: nat, skip: nat, m: nat) returns (d: nat)
      requires c < m && skip < m
      ensures d == Advance(c, skip, m)
    {
      AdvanceIsModular(c, skip, m);
      d := (c + skip) % m;
    }
  }

  /** `next` holds where each walk resumes: everything before it on that walk is taken. */
  ghost predicate Resumed(ws: seq<Walk>, t: seq<int>, next: seq<nat>, pos: seq<nat>)
    requires ValidWalks(ws, |t|)
  {
    && |ws| == |next| == |pos|
    && (forall i :: 0 <= i < |ws| ==> next[i] == Slot(ws[i], |t|, pos[i]))
    && (forall i :: 0 <= i < |ws| ==> AllTaken(ws[i], t, pos[i]))
  }

  /** Passing a taken slot keeps `Resumed`. */
  lemma Resume(ws: seq<Walk>, t: seq<int>, next: seq<nat>, pos: seq<nat>, i: nat)
    requires ValidWalks(ws, |t|) && Resumed(ws, t, next, pos) && i < |ws|
    requires next[i] < |t| && t[next[i]] != FREE
    ensures Resumed(ws, t, next[i := Advance(next[i], ws[i].skip, |t|)], pos[i := pos[i] + 1])
  {
    assert AllTaken(ws[i], t, pos[i] + 1);
  }

  /** Claiming a slot keeps `Resumed`. */
  lemma Claimed(ws: seq<Walk>, t: seq<int>, next: seq<nat>, pos: seq<nat>, i: nat)
    requires ValidWalks(ws, |t|) && Resumed(ws, t, next, pos) && i < |ws|
    ensures Resumed(ws, t[next[i] := i], next, pos)
  {
    forall j | 0 <= j < |ws| ensures AllTaken(ws[j], t[next[i] := i], pos[j]) {
      assert AllTaken(ws[j], t, pos[j]);
    }
  }

  lemma StartOfWalks(ws: seq<Walk>, t: seq<int>, next: seq<nat>) returns (pos: seq<nat>)
    requires |next| == |ws| && forall i :: 0 <= i < |ws| ==> next[i] == ws[i].offset
    requires ValidWalks(ws, |t|)
    ensures Resumed(ws, t, next, pos)
  {
    pos := seq(|ws|, _ => 0);
  }
}
