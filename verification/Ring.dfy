/** The weighted consistent-hash ring of `pinning.go` and its use in destination pinning. */
module Ring {
  import opened Basics

  const VNODE_MULTIPLIER := 100

  datatype DestinationRef = DestinationRef(id: string, weight: uint32)
  datatype Node = Node(hash: uint32, id: string)

  // ----- Virtual nodes -----

  function Vnodes(weight: nat): nat {
    if weight * VNODE_MULTIPLIER < 1 then 1 else weight * VNODE_MULTIPLIER
  }

  function VnodeKey(id: string, v: nat): string {
    id + ":" + Decimal(v)
  }

  function NodesOf(crc: string -> uint32, id: string, n: nat): (s: seq<Node>)
    ensures |s| == n
  {
    if n == 0 then [] else NodesOf(crc, id, n - 1) + [Node(crc(VnodeKey(id, n - 1)), id)]
  }

  function AllNodes(crc: string -> uint32, dests: seq<DestinationRef>): seq<Node> {
    if dests == [] then []
    else
      var d := dests[|dests| - 1];
      AllNodes(crc, dests[..|dests| - 1]) + NodesOf(crc, d.id, Vnodes(d.weight))
  }

  /** A hundred nodes for each unit of weight, and one for none. */
  function NodesDue(d: DestinationRef): nat {
    if d.weight == 0 then 1 else 100 * d.weight
  }

  ghost predicate HasNode(crc: string -> uint32, d: DestinationRef, e: Node) {
    e.id == d.id && exists v: nat :: v < Vnodes(d.weight) && e.hash == crc(VnodeKey(d.id, v))
  }

  /** One of the nodes due to this destination, in the words of the source. */
  ghost predicate DueNode(crc: string -> uint32, d: DestinationRef, e: Node) {
    exists v: nat :: v < NodesDue(d) && e == Node(crc(d.id + ":" + Decimal(v)), d.id)
  }

  lemma NodeIsDue(crc: string -> uint32, d: DestinationRef, e: Node)
    ensures HasNode(crc, d, e) <==> DueNode(crc, d, e)
  {
    if HasNode(crc, d, e) {
      var v: nat :| v < Vnodes(d.weight) && e.hash == crc(VnodeKey(d.id, v));
      assert e == Node(crc(d.id + ":" + Decimal(v)), d.id);
    }
    if DueNode(crc, d, e) {
      var v: nat :| v < NodesDue(d) && e == Node(crc(d.id + ":" + Decimal(v)), d.id);
      assert e.hash == crc(VnodeKey(d.id, v));
    }
  }

  lemma {:induction false} InNodesOf(crc: string -> uint32, id: string, n: nat, e: Node)
    ensures e in NodesOf(crc, id, n) <==>
      e.id == id && exists v: nat :: v < n && e.hash == crc(VnodeKey(id, v))
  {
    if n > 0 {
      InNodesOf(crc, id, n - 1, e);
      var last := Node(crc(VnodeKey(id, n - 1)), id);
      assert e in NodesOf(crc, id, n) <==> e in NodesOf(crc, id, n - 1) || e == last;
    }
  }

  /** A node is on the ring exactly when some listed destination's weight gives it that node. */
  lemma {:induction false} InAllNodes(crc: string -> uint32, dests: seq<DestinationRef>, e: Node)
    ensures e in AllNodes(crc, dests) <==> exists d :: d in dests && HasNode(crc, d, e)
  {
    if dests != [] {
      var d, rest := dests[|dests| - 1], dests[..|dests| - 1];
      InAllNodes(crc, rest, e);
      InNodesOf(crc, d.id, Vnodes(d.weight), e);
      if e in AllNodes(crc, rest) {
        var x :| x in rest && HasNode(crc, x, e);
        assert x in dests;
      } else if e in NodesOf(crc, d.id, Vnodes(d.weight)) {
        assert d in dests && HasNode(crc, d, e);
      } else {
        forall x | x in dests ensures !HasNode(crc, x, e) {
          var i :| 0 <= i < |dests| && dests[i] == x;
          assert i < |rest| ==> rest[i] == x;
        }
      }
    }
  }

  /** The nodes due to all destinations together, and to those with this identifier. */
  function TotalDue(dests: seq<DestinationRef>): nat {
    if dests == [] then 0 else TotalDue(dests[..|dests| - 1]) + NodesDue(dests[|dests| - 1])
  }

  function DueTo(dests: seq<DestinationRef>, id: string): nat {
    if dests == [] then 0
    else
      var d := dests[|dests| - 1];
      DueTo(dests[..|dests| - 1], id) + if d.id == id then NodesDue(d) else 0
  }

  function Occurrences(s: seq<Node>, id: string): nat {
    if s == [] then 0
    else Occurrences(s[..|s| - 1], id) + if s[|s| - 1].id == id then 1 else 0
  }

  lemma OccurrencesLast(s: seq<Node>, e: Node, id: string)
    ensures Occurrences(s + [e], id) == Occurrences(s, id) + if e.id == id then 1 else 0
  {
    assert (s + [e])[..|s|] == s;
  }

  lemma {:induction false} OccurrencesConcat(s: seq<Node>, t: seq<Node>, id: string)
    ensures Occurrences(s + t, id) == Occurrences(s, id) + Occurrences(t, id)
  {
    if t == [] {
      assert s + t == s;
    } else {
      var r, e := t[..|t| - 1], t[|t| - 1];
      OccurrencesConcat(s, r, id);
      OccurrencesLast(s + r, e, id);
      assert s + t == s + r + [e];
    }
  }

  lemma RemoveTakesOne(t: seq<Node>, i: nat)
    requires i < |t|
    ensures multiset(t[..i] + t[i + 1..]) == multiset(t) - multiset{t[i]}
  {
    assert t == t[..i] + [t[i]] + t[i + 1..];
  }

  lemma {:induction false} OccurrencesPermuted(s: seq<Node>, t: seq<Node>, id: string)
    requires multiset(s) == multiset(t)
    ensures Occurrences(s, id) == Occurrences(t, id)
  {
    if s == [] {
      assert |multiset(t)| == 0;
    } else {
      var rest, e := s[..|s| - 1], s[|s| - 1];
      assert s == rest + [e];
      assert e in multiset(t);
      var i :| 0 <= i < |t| && t[i] == e;
      var a, b := t[..i], t[i + 1..];
      RemoveTakesOne(t, i);
      assert t == a + [e] + b;
      OccurrencesPermuted(rest, a + b, id);
      OccurrencesConcat(a, b, id);
      OccurrencesConcat(a + [e], b, id);
      OccurrencesLast(a, e, id);
    }
  }

  lemma {:induction false} OccurrencesOf(crc: string -> uint32, d: string, n: nat, id: string)
    ensures Occurrences(NodesOf(crc, d, n), id) == if d == id then n else 0
  {
    if n > 0 {
      OccurrencesOf(crc, d, n - 1, id);
      OccurrencesLast(NodesOf(crc, d, n - 1), Node(crc(VnodeKey(d, n - 1)), d), id);
    }
  }

  lemma VnodesAreDue(d: DestinationRef)
    ensures Vnodes(d.weight) == NodesDue(d)
  {
  }

  /** Every destination gets as many nodes as its weight is due. */
  lemma {:induction false} NodesByWeight(crc: string -> uint32, dests: seq<DestinationRef>, id: string)
    ensures |AllNodes(crc, dests)| == TotalDue(dests)
    ensures Occurrences(AllNodes(crc, dests), id) == DueTo(dests, id)
  {
    if dests != [] {
      var d, rest := dests[|dests| - 1], dests[..|dests| - 1];
      var before, nodes := AllNodes(crc, rest), NodesOf(crc, d.id, NodesDue(d));
      NodesByWeight(crc, rest, id);
      VnodesAreDue(d);
      assert AllNodes(crc, dests) == before + nodes;
      OccurrencesOf(crc, d.id, NodesDue(d), id);
      OccurrencesConcat(before, nodes, id);
    }
  }

  /** Nodes are in proportion to weights between two destinations exactly when both or neither have weight zero. */
  lemma ProportionalIff(a: DestinationRef, b: DestinationRef)
    ensures NodesDue(a) * b.weight == NodesDue(b) * a.weight <==> (a.weight == 0 <==> b.weight == 0)
  {
    assert a.weight != 0 && b.weight != 0 ==> 100 * a.weight * b.weight == 100 * b.weight * a.weight;
  }

  // ----- Rings: any sorted arrangement of the nodes -----

  ghost predicate Sorted(r: seq<Node>) {
    forall i, j :: 0 <= i < j < |r| ==> r[i].hash <= r[j].hash
  }

  /** `sort.Slice` is not stable: a ring is any arrangement sorted by hash. */
  ghost predicate IsRing(crc: string -> uint32, dests: seq<DestinationRef>, r: seq<Node>) {
    multiset(r) == multiset(AllNodes(crc, dests)) && Sorted(r)
  }

  lemma InRing(crc: string -> uint32, dests: seq<DestinationRef>, r: seq<Node>, e: Node)
    requires IsRing(crc, dests, r)
    ensures e in r <==> exists d :: d in dests && HasNode(crc, d, e)
  {
    InAllNodes(crc, dests, e);
    assert e in r <==> e in multiset(r);
  }

  /** Exactly the nodes due to the listed destinations are on the ring, and as many of each as are due. */
  lemma RingByWeight(crc: string -> uint32, dests: seq<DestinationRef>, r: seq<Node>)
    requires IsRing(crc, dests, r)
    ensures |r| == TotalDue(dests) && forall id :: Occurrences(r, id) == DueTo(dests, id)
    ensures forall e :: e in r <==> exists d :: d in dests && DueNode(crc, d, e)
  {
    forall e ensures e in r <==> exists d :: d in dests && DueNode(crc, d, e) {
      InRing(crc, dests, r, e);
      forall d ensures HasNode(crc, d, e) <==> DueNode(crc, d, e) {
        NodeIsDue(crc, d, e);
      }
    }
    RingCounts(crc, dests, r);
  }

  lemma RingCounts(crc: string -> uint32, dests: seq<DestinationRef>, r: seq<Node>)
    requires IsRing(crc, dests, r)
    ensures |r| == TotalDue(dests) && forall id :: Occurrences(r, id) == DueTo(dests, id)
  {
    var nodes := AllNodes(crc, dests);
    assert |multiset(r)| == |r| && |multiset(nodes)| == |nodes|;
    forall id ensures |nodes| == TotalDue(dests) && Occurrences(r, id) == DueTo(dests, id) {
      NodesByWeight(crc, dests, id);
      OccurrencesPermuted(r, nodes, id);
    }
    NodesByWeight(crc, dests, "");
  }

  /** No two virtual nodes of different destinations share a hash. */
  ghost predicate CollisionFree(r: seq<Node>) {
    forall a, b :: a in r && b in r && a.hash == b.hash ==> a.id == b.id
  }

  // ----- Lookup -----

  /** The first index at or after `i` whose hash is at least `key`. */
  function LowerBound(r: seq<Node>, key: nat, i: nat): (k: nat)
    requires i <= |r|
    ensures i <= k <= |r| && (k < |r| ==> r[k].hash >= key)
    ensures forall j :: i <= j < k ==> r[j].hash < key
    decreases |r| - i
  {
    if i == |r| || r[i].hash >= key then i else LowerBound(r, key, i + 1)
  }

  /** The destination that a ring gives a key: the next node clockwise. */
  function Successor(r: seq<Node>, key: nat): string {
    if r == [] then ""
    else
      var k := LowerBound(r, key, 0);
      r[if k == |r| then 0 else k].id
  }

  /** Clockwise distance on the hash circle. */
  function Distance(key: uint32, h: uint32): nat {
    if h >= key then h - key else h + UINT32 - key
  }

  ghost predicate Nearest(r: seq<Node>, key: uint32, e: Node) {
    e in r && forall x :: x in r ==> Distance(key, e.hash) <= Distance(key, x.hash)
  }

  /** The lookup finds a node at the least clockwise distance from the key. */
  lemma SuccessorIsNearest(r: seq<Node>, key: uint32) returns (e: Node)
    requires Sorted(r) && r != []
    ensures Nearest(r, key, e) && e.id == Successor(r, key)
  {
    var k := LowerBound(r, key, 0);
    e := r[if k == |r| then 0 else k];
  }

  /** Without collisions the nearest destination is unique, so any ring over the same nodes agrees. */
  lemma NearestUnique(r: seq<Node>, key: uint32, e: Node)
    requires Sorted(r) && CollisionFree(r) && Nearest(r, key, e)
    ensures Successor(r, key) == e.id
  {
    var f := SuccessorIsNearest(r, key);
    assert Distance(key, e.hash) == Distance(key, f.hash);
  }

  // ----- Minimal disruption -----

  /** Adding nodes moves a key only to a destination that gained a node. */
  lemma AddedNodesOnlyAttract(r: seq<Node>, r': seq<Node>, key: uint32) returns (e: Node)
    requires Sorted(r) && Sorted(r') && CollisionFree(r') && r != []
    requires forall x :: x in r ==> x in r'
    ensures e in r' && e.id == Successor(r', key)
    ensures Successor(r', key) != Successor(r, key) ==> e !in r
  {
    var o := SuccessorIsNearest(r, key);
    assert o in r';
    e := SuccessorIsNearest(r', key);
    if e in r {
      assert Nearest(r, key, e);
      assert CollisionFree(r);
      NearestUnique(r, key, e);
    }
  }

  /** Raising one destination's weight moves keys only to that destination. */
  lemma RaisingWeightAttracts(crc: string -> uint32, dests: seq<DestinationRef>, k: nat, w: uint32,
                              r: seq<Node>, r': seq<Node>, key: uint32)
    requires k < |dests| && w >= dests[k].weight
    requires IsRing(crc, dests, r) && IsRing(crc, dests[k := dests[k].(weight := w)], r')
    requires CollisionFree(r')
    ensures Successor(r', key) != Successor(r, key) ==> Successor(r', key) == dests[k].id
  {
    var d, dests' := dests[k], dests[k := dests[k].(weight := w)];
    NodesOfChange(crc, dests, k, w, r, r');
    RingNotEmpty(crc, dests, r);
    var e := AddedNodesOnlyAttract(r, r', key);
  }

  /** Lowering one destination's weight moves only keys that were on it. */
  lemma LoweringWeightReleases(crc: string -> uint32, dests: seq<DestinationRef>, k: nat, w: uint32,
                               r: seq<Node>, r': seq<Node>, key: uint32)
    requires k < |dests| && w <= dests[k].weight
    requires IsRing(crc, dests, r) && IsRing(crc, dests[k := dests[k].(weight := w)], r')
    requires CollisionFree(r)
    ensures Successor(r', key) != Successor(r, key) ==> Successor(r, key) == dests[k].id
  {
    var dests' := dests[k := dests[k].(weight := w)];
    assert dests == dests'[k := dests'[k].(weight := dests[k].weight)];
    RaisingWeightAttracts(crc, dests', k, dests[k].weight, r', r, key);
  }

  lemma NodesOfChange(crc: string -> uint32, dests: seq<DestinationRef>, k: nat, w: uint32,
                      r: seq<Node>, r': seq<Node>)
    requires k < |dests| && w >= dests[k].weight
    requires IsRing(crc, dests, r) && IsRing(crc, dests[k := dests[k].(weight := w)], r')
    ensures forall x :: x in r ==> x in r'
    ensures forall x :: x in r' && x !in r ==> x.id == dests[k].id
  {
    var d', dests' := dests[k].(weight := w), dests[k := dests[k].(weight := w)];
    assert d' == dests'[k];
    forall x | x in r ensures x in r' {
      InRing(crc, dests, r, x);
      InRing(crc, dests', r', x);
      var d :| d in dests && HasNode(crc, d, x);
      var i :| 0 <= i < |dests| && dests[i] == d;
      if i == k { assert HasNode(crc, d', x); } else { assert dests'[i] == d; }
    }
    forall x | x in r' ensures x in r || x.id == dests[k].id {
      InRing(crc, dests, r, x);
      InRing(crc, dests', r', x);
      var d :| d in dests' && HasNode(crc, d, x);
      var i :| 0 <= i < |dests'| && dests'[i] == d;
      if i != k { assert dests[i] == d; }
    }
  }

  lemma RingNotEmpty(crc: string -> uint32, dests: seq<DestinationRef>, r: seq<Node>)
    requires IsRing(crc, dests, r) && dests != []
    ensures r != []
  {
    var d := dests[0];
    var e := Node(crc(VnodeKey(d.id, 0)), d.id);
    assert HasNode(crc, d, e);
    InRing(crc, dests, r, e);
  }

  /** The result does not depend on the order of the destination list. */
  lemma OrderIrrelevant(crc: string -> uint32, dests: seq<DestinationRef>, dests': seq<DestinationRef>,
                        r: seq<Node>, r': seq<Node>, key: uint32)
    requires multiset(dests) == multiset(dests')
    requires IsRing(crc, dests, r) && IsRing(crc, dests', r') && CollisionFree(r)
    ensures Successor(r, key) == Successor(r', key)
  {
    assert forall d :: d in dests <==> d in multiset(dests);
    assert forall d :: d in dests' <==> d in multiset(dests');
    forall x ensures x in r <==> x in r' {
      InRing(crc, dests, r, x);
      InRing(crc, dests', r', x);
    }
    SameNodesSamePick(r, r', key);
  }

  lemma SameNodesSamePick(r: seq<Node>, r': seq<Node>, key: uint32)
    requires Sorted(r) && Sorted(r') && CollisionFree(r) && forall x :: x in r <==> x in r'
    ensures Successor(r, key) == Successor(r', key)
  {
    EmptyIffNoMembers(r);
    EmptyIffNoMembers(r');
    if r' != [] {
      var e := SuccessorIsNearest(r', key);
      NearestUnique(r, key, e);
    }
  }

  lemma EmptyIffNoMembers<T>(s: seq<T>)
    ensures s == [] <==> forall x :: x !in s
  {
    if s != [] {
      assert s[0] in s;
    }
  }

  /** "Every proxy produces the same result" holds for a list of destinations exactly when no
      two different destinations collide: otherwise the unstable sort decides. */
  lemma PicksAgreeIffCollisionFree(crc: string -> uint32, dests: seq<DestinationRef>)
    ensures CollisionFree(AllNodes(crc, dests)) <==>
      forall r, r', key: uint32 :: IsRing(crc, dests, r) && IsRing(crc, dests, r') ==> Successor(r, key) == Successor(r', key)
  {
    var nodes := AllNodes(crc, dests);
    if CollisionFree(nodes) {
      forall r, r', key: uint32 | IsRing(crc, dests, r) && IsRing(crc, dests, r')
        ensures Successor(r, key) == Successor(r', key)
      {
        SameMembers(r, nodes);
        SameMembers(r', nodes);
        SameNodesSamePick(r, r', key);
      }
    } else {
      var a, b :| a in nodes && b in nodes && a.hash == b.hash && a.id != b.id;
      var ra := Arrangement(crc, dests, a);
      var rb := Arrangement(crc, dests, b);
      assert Successor(ra, a.hash) != Successor(rb, a.hash);
    }
  }

  /** A ring on which the key equal to the hash of `e` goes to `e`. */
  lemma Arrangement(crc: string -> uint32, dests: seq<DestinationRef>, e: Node) returns (r: seq<Node>)
    requires e in AllNodes(crc, dests)
    ensures IsRing(crc, dests, r) && Successor(r, e.hash) == e.id
  {
    assert e in multiset(AllNodes(crc, dests));
    r := PutFirst(SortByHash(AllNodes(crc, dests)), e);
  }

  lemma SameMembers(r: seq<Node>, s: seq<Node>)
    requires multiset(r) == multiset(s)
    ensures forall x :: x in r <==> x in s
  {
    assert forall x :: x in r <==> x in multiset(r);
    assert forall x :: x in s <==> x in multiset(s);
  }

  lemma TwoNodes(crc: string -> uint32, a: string, b: string)
    ensures AllNodes(crc, [DestinationRef(a, 0), DestinationRef(b, 0)]) ==
      [Node(crc(VnodeKey(a, 0)), a), Node(crc(VnodeKey(b, 0)), b)]
  {
    var dests := [DestinationRef(a, 0), DestinationRef(b, 0)];
    assert dests[..1] == [DestinationRef(a, 0)];
    assert dests[..1][..0] == [];
    assert AllNodes(crc, dests[..1]) == NodesOf(crc, a, 1);
  }

  lemma EqualHashes(x: Node, y: Node)
    requires x.hash == y.hash
    ensures Sorted([x, y]) && Successor([x, y], x.hash) == x.id && multiset([x, y]) == multiset([y, x])
  {
    assert LowerBound([x, y], x.hash, 0) == 0;
  }

  /** Two destinations whose first virtual nodes hash alike: the two ways to arrange them answer differently. */
  lemma CollisionDisagrees(crc: string -> uint32, a: string, b: string)
    requires a != b && crc(VnodeKey(a, 0)) == crc(VnodeKey(b, 0))
    ensures var dests, key := [DestinationRef(a, 0), DestinationRef(b, 0)], crc(VnodeKey(a, 0));
      exists r, r' ::
        IsRing(crc, dests, r) && IsRing(crc, dests, r') && Successor(r, key) == a && Successor(r', key) == b
  {
    var dests, key := [DestinationRef(a, 0), DestinationRef(b, 0)], crc(VnodeKey(a, 0));
    var x, y := Node(key, a), Node(key, b);
    TwoNodes(crc, a, b);
    EqualHashes(x, y);
    EqualHashes(y, x);
    assert IsRing(crc, dests, [x, y]) && IsRing(crc, dests, [y, x]);
  }

  /** A rearrangement of a sorted ring in which `e` comes first among the nodes with its hash. */
  ghost function PutFirst(r: seq<Node>, e: Node): (r': seq<Node>)
    requires Sorted(r) && e in multiset(r)
    ensures Sorted(r') && multiset(r') == multiset(r) && Successor(r', e.hash) == e.id
  {
    assert e in r;
    var i :| 0 <= i < |r| && r[i] == e;
    var k := LowerBound(r, e.hash, 0);
    var r' := r[i := r[k]][k := e];
    LowerBoundStays(r, r', e.hash, 0);
    r'
  }

  lemma {:induction false} LowerBoundStays(r: seq<Node>, r': seq<Node>, key: nat, i: nat)
    requires |r| == |r'| && i <= |r| && forall j :: i <= j < |r| ==> r[j].hash == r'[j].hash
    ensures LowerBound(r, key, i) == LowerBound(r', key, i)
    decreases |r| - i
  {
    if i < |r| {
      LowerBoundStays(r, r', key, i + 1);
    }
  }

  // ----- Skipping destinations -----

  function Keep(r: seq<Node>, valid: set<string>): (s: seq<Node>)
    ensures forall x :: x in s <==> x in r && x.id in valid
  {
    if r == [] then []
    else
      var s := Keep(r[..|r| - 1], valid);
      assert r == r[..|r| - 1] + [r[|r| - 1]];
      if r[|r| - 1].id in valid then s + [r[|r| - 1]] else s
  }

  function KeepDests(dests: seq<DestinationRef>, valid: set<string>): (s: seq<DestinationRef>)
    ensures forall d :: d in s <==> d in dests && d.id in valid
  {
    if dests == [] then []
    else
      var s := KeepDests(dests[..|dests| - 1], valid);
      assert dests == dests[..|dests| - 1] + [dests[|dests| - 1]];
      if dests[|dests| - 1].id in valid then s + [dests[|dests| - 1]] else s
  }

  lemma {:induction false} KeepSorted(r: seq<Node>, valid: set<string>)
    requires Sorted(r)
    ensures Sorted(Keep(r, valid))
  {
    if r != [] {
      var rest := r[..|r| - 1];
      KeepSorted(rest, valid);
      forall x | x in Keep(rest, valid) ensures x.hash <= r[|r| - 1].hash {
        var i :| 0 <= i < |rest| && rest[i] == x;
      }
    }
  }

  /** Skipping invalid destinations on the full ring gives the same answer as looking up a ring
      rebuilt from only the valid destinations. */
  lemma SkippingIsRebuilding(crc: string -> uint32, dests: seq<DestinationRef>, valid: set<string>,
                             r: seq<Node>, rebuilt: seq<Node>, key: uint32)
    requires IsRing(crc, dests, r) && IsRing(crc, KeepDests(dests, valid), rebuilt)
    requires CollisionFree(rebuilt)
    ensures Successor(Keep(r, valid), key) == Successor(rebuilt, key)
  {
    KeepSorted(r, valid);
    forall x ensures x in rebuilt <==> x in Keep(r, valid) {
      InRing(crc, dests, r, x);
      InRing(crc, KeepDests(dests, valid), rebuilt, x);
    }
    SameNodesSamePick(rebuilt, Keep(r, valid), key);
  }

  // ----- The code -----

  function SortByHash(s: seq<Node>): (r: seq<Node>)
    ensures Sorted(r) && multiset(r) == multiset(s)
  {
    if s == [] then []
    else
      assert s == s[..|s| - 1] + [s[|s| - 1]];
      InsertByHash(SortByHash(s[..|s| - 1]), s[|s| - 1])
  }

  function InsertByHash(r: seq<Node>, e: Node): (r': seq<Node>)
    requires Sorted(r)
    ensures Sorted(r') && multiset(r') == multiset(r) + multiset{e}
  {
    var k := LowerBound(r, e.hash, 0);
    InsertKeepsSorted(r, e, k);
    InsertAddsOne(r, e, k);
    r[..k] + [e] + r[k..]
  }

  lemma InsertAddsOne(r: seq<Node>, e: Node, k: nat)
    requires k <= |r|
    ensures multiset(r[..k] + [e] + r[k..]) == multiset(r) + multiset{e}
  {
    assert r == r[..k] + r[k..];
  }

  lemma InsertKeepsSorted(r: seq<Node>, e: Node, k: nat)
    requires Sorted(r) && k <= |r|
    requires forall j :: 0 <= j < k ==> r[j].hash < e.hash
    requires k < |r| ==> r[k].hash >= e.hash
    ensures Sorted(r[..k] + [e] + r[k..])
  {
  }

  method BuildDestinationRing(crc: string -> uint32, dests: seq<DestinationRef>) returns (ring: seq<Node>)
    ensures IsRing(crc, dests, ring)
    ensures |ring| == TotalDue(dests) && forall id :: Occurrences(ring, id) == DueTo(dests, id)
    ensures forall e :: e in ring <==> exists d :: d in dests && DueNode(crc, d, e)
  {
    if |dests| == 0 {
      return [];
    }
    var entries: seq<Node> := [];
    for k := 0 to |dests|
      invariant entries == AllNodes(crc, dests[..k])
    {
      var b := dests[k];
      var vnodes := b.weight * VNODE_MULTIPLIER;
      if vnodes < 1 {
        vnodes := 1;
      }
      ghost var before := entries;
      for i := 0 to vnodes
        invariant entries == before + NodesOf(crc, b.id, i)
      {
        var digits := Itoa(i);
        entries := entries + [Node(crc(b.id + ":" + digits), b.id)];
      }
      assert dests[..k + 1][..k] == dests[..k];
    }
    assert dests[..|dests|] == dests;
    ring := SortByHash(entries);
    RingByWeight(crc, dests, ring);
  }

  /** `sort.Search` over the ring's hashes. */
  method Search(r: seq<Node>, key: nat) returns (k: nat)
    requires Sorted(r)
    ensures k == LowerBound(r, key, 0)
  {
    var i, j := 0, |r|;
    while i < j
      invariant 0 <= i <= j <= |r|
      invariant forall x :: 0 <= x < i ==> r[x].hash < key
      invariant forall x :: j <= x < |r| ==> r[x].hash >= key
    {
      var h := (i + j) / 2;
      if r[h].hash < key {
        i := h + 1;
      } else {
        j := h;
      }
    }
    LowerBoundAt(r, key, i);
    k := i;
  }

  method Pick(r: seq<Node>, key: uint32) returns (id: string)
    requires Sorted(r)
    ensures id == Successor(r, key)
    ensures r != [] ==> exists e :: Nearest(r, key, e) && e.id == id
  {
    if |r| == 0 {
      return "";
    }
    var idx := Search(r, key);
    if idx >= |r| {
      idx := 0;
    }
    ghost var e := SuccessorIsNearest(r, key);
    return r[idx].id;
  }

  method PickValid(r: seq<Node>, key: uint32, valid: set<string>) returns (id: string)
    requires Sorted(r)
    ensures id == Successor(Keep(r, valid), key)
  {
    if |r| == 0 {
      return "";
    }
    var idx := Search(r, key);
    ghost var k := idx;
    for step := 0 to |r|
      invariant idx == (if k + step <= |r| then k + step else k + step - |r|)
      invariant forall j :: k <= j < k + step && j < |r| ==> r[j].id !in valid
      invariant forall j :: 0 <= j < k + step - |r| ==> r[j].id !in valid
    {
      if idx >= |r| {
        idx := 0;
      }
      if r[idx].id in valid {
        if idx >= k {
          FirstKept(r, key, valid, idx);
        } else {
          FirstKeptWrapped(r, key, valid, idx);
        }
        return r[idx].id;
      }
      idx := idx + 1;
    }
    EmptyIffNoMembers(Keep(r, valid));
    return "";
  }

  /** A valid node with only invalid ones between the key and it is the successor on the kept ring. */
  lemma FirstKept(r: seq<Node>, key: uint32, valid: set<string>, idx: nat)
    requires Sorted(r) && LowerBound(r, key, 0) <= idx < |r| && r[idx].id in valid
    requires forall j :: LowerBound(r, key, 0) <= j < idx ==> r[j].id !in valid
    ensures Successor(Keep(r, valid), key) == r[idx].id
  {
    KeepSplit(r, idx, valid);
    var s, pre := Keep(r, valid), Keep(r[..idx], valid);
    assert s[|pre|] == r[idx];
    forall i | 0 <= i < |pre| ensures s[i].hash < key {
      assert s[i] == pre[i];
      var j :| 0 <= j < idx && r[j] == pre[i];
    }
    LowerBoundAt(s, key, |pre|);
  }

  /** The same after wrapping around: no valid node lies at or after the key. */
  lemma FirstKeptWrapped(r: seq<Node>, key: uint32, valid: set<string>, idx: nat)
    requires Sorted(r) && idx < LowerBound(r, key, 0) && r[idx].id in valid
    requires forall j :: LowerBound(r, key, 0) <= j < |r| || 0 <= j < idx ==> r[j].id !in valid
    ensures Successor(Keep(r, valid), key) == r[idx].id
  {
    KeepSplit(r, idx, valid);
    var s, pre := Keep(r, valid), Keep(r[..idx], valid);
    EmptyIffNoMembers(pre);
    assert s[0] == r[idx];
    forall i | 0 <= i < |s| ensures s[i].hash < key {
      assert s[i] in s;
      var j :| 0 <= j < |r| && r[j] == s[i];
    }
    LowerBoundAt(s, key, |s|);
  }

  lemma LowerBoundAt(r: seq<Node>, key: nat, k: nat)
    requires k <= |r| && (forall j :: 0 <= j < k ==> r[j].hash < key) && (k < |r| ==> r[k].hash >= key)
    ensures LowerBound(r, key, 0) == k
  {
  }

  function KeepOne(e: Node, valid: set<string>): seq<Node> {
    if e.id in valid then [e] else []
  }

  lemma KeepLast(r: seq<Node>, e: Node, valid: set<string>)
    ensures Keep(r + [e], valid) == Keep(r, valid) + KeepOne(e, valid)
  {
    assert (r + [e])[..|r|] == r;
  }

  lemma {:induction false} KeepConcat(r: seq<Node>, s: seq<Node>, valid: set<string>)
    ensures Keep(r + s, valid) == Keep(r, valid) + Keep(s, valid)
  {
    if s == [] {
      assert r + s == r;
    } else {
      var t, e := s[..|s| - 1], s[|s| - 1];
      assert s == t + [e];
      KeepConcat(r, t, valid);
      KeepLast(t, e, valid);
      KeepLast(r + t, e, valid);
      Associative(r, t, [e]);
      Associative(Keep(r, valid), Keep(t, valid), KeepOne(e, valid));
    }
  }

  lemma KeepSplit(r: seq<Node>, i: nat, valid: set<string>)
    requires i < |r| && r[i].id in valid
    ensures Keep(r, valid) == Keep(r[..i], valid) + [r[i]] + Keep(r[i + 1..], valid)
  {
    assert r == r[..i] + [r[i]] + r[i + 1..];
    KeepConcat(r[..i] + [r[i]], r[i + 1..], valid);
    KeepLast(r[..i], r[i], valid);
  }

  // ----- Pinning a request to a destination -----

  datatype Choice = Pinned(id: string) | Fallback

  predicate Healthy(pools: map<string, seq<bool>>, id: string) {
    id in pools && true in pools[id]
  }

  /** `filterHealthyPools`: the listed destinations whose pool has a healthy endpoint, in order. */
  method FilterHealthyPools(dests: seq<DestinationRef>, pools: map<string, seq<bool>>) returns (healthy: seq<DestinationRef>)
    ensures healthy == HealthyDests(dests, pools)
  {
    healthy := [];
    for k := 0 to |dests|
      invariant healthy == HealthyDests(dests[..k], pools)
    {
      var b := dests[k];
      assert dests[..k + 1][..k] == dests[..k];
      if b.id in pools {
        var pool := pools[b.id];
        ghost var before := healthy;
        for e := 0 to |pool|
          invariant healthy == before && forall i :: 0 <= i < e ==> !pool[i]
        {
          if pool[e] {
            healthy := healthy + [b];
            break;
          }
        }
      }
    }
    assert dests[..|dests|] == dests;
  }

  function KeepHealthy(pools: map<string, seq<bool>>): DestinationRef -> Option<DestinationRef> {
    (d: DestinationRef) => if d.id in pools && true in pools[d.id] then Some(d) else None
  }

  /** The healthy destinations keep their order and multiplicity. */
  lemma {:induction false} HealthyInOrder(dests: seq<DestinationRef>, pools: map<string, seq<bool>>)
    ensures AreValues(dests, KeepHealthy(pools), HealthyDests(dests, pools))
  {
    if dests == [] {
      NoValues(KeepHealthy(pools));
    } else {
      HealthyInOrder(dests[..|dests| - 1], pools);
      LastValue(dests, KeepHealthy(pools), HealthyDests(dests[..|dests| - 1], pools), HealthyDests(dests, pools));
    }
  }

  function HealthyDests(dests: seq<DestinationRef>, pools: map<string, seq<bool>>): (s: seq<DestinationRef>)
    ensures forall d :: d in s <==> d in dests && Healthy(pools, d.id)
  {
    if dests == [] then []
    else
      var d := dests[|dests| - 1];
      var s := HealthyDests(dests[..|dests| - 1], pools);
      assert dests == dests[..|dests| - 1] + [d];
      if Healthy(pools, d.id) then s + [d] else s
  }

  /** `pickPinnedPool`: a healthy destination is pinned, and the weighted-random fallback is taken
      exactly when the ring's choice is the empty identifier. */
  method PickPinned(crc: string -> uint32, dests: seq<DestinationRef>, pools: map<string, seq<bool>>,
                    ring: seq<Node>, hashKey: uint32) returns (c: Choice)
    requires IsRing(crc, dests, ring) && HealthyDests(dests, pools) != []
    ensures c.Pinned? ==> Healthy(pools, c.id) && exists d :: d in dests && d.id == c.id
    ensures c.Fallback? ==> exists d :: d in dests && d.id == "" && Healthy(pools, d.id)
    ensures forall rebuilt :: IsRing(crc, HealthyDests(dests, pools), rebuilt) && CollisionFree(rebuilt) ==>
      c == if Successor(rebuilt, hashKey) == "" then Fallback else Pinned(Successor(rebuilt, hashKey))
  {
    var healthy := FilterHealthyPools(dests, pools);
    var validSet := {};
    for k := 0 to |healthy|
      invariant validSet == set d | d in healthy[..k] :: d.id
    {
      validSet := validSet + {healthy[k].id};
      assert healthy[..k + 1] == healthy[..k] + [healthy[k]];
    }
    assert healthy[..|healthy|] == healthy;
    var destID := PickValid(ring, hashKey, validSet);
    PinnedIsHealthy(crc, dests, pools, ring, hashKey, validSet);
    c := if destID == "" then Fallback else Pinned(destID);
  }

  lemma PinnedIsHealthy(crc: string -> uint32, dests: seq<DestinationRef>, pools: map<string, seq<bool>>,
                        ring: seq<Node>, key: uint32, valid: set<string>)
    requires IsRing(crc, dests, ring) && HealthyDests(dests, pools) != []
    requires valid == set d | d in HealthyDests(dests, pools) :: d.id
    ensures var id := Successor(Keep(ring, valid), key);
      Healthy(pools, id) && exists d :: d in dests && d.id == id
    ensures forall rebuilt :: IsRing(crc, HealthyDests(dests, pools), rebuilt) && CollisionFree(rebuilt) ==>
      Successor(Keep(ring, valid), key) == Successor(rebuilt, key)
  {
    var healthy, kept := HealthyDests(dests, pools), Keep(ring, valid);
    var d := healthy[0];
    var e := Node(crc(VnodeKey(d.id, 0)), d.id);
    assert HasNode(crc, d, e);
    InRing(crc, dests, ring, e);
    KeepSorted(ring, valid);
    var f := SuccessorIsNearest(kept, key);
    InRing(crc, dests, ring, f);
    assert healthy == KeepDests(dests, valid) by { HealthyAreKept(dests, pools, valid); }
    forall rebuilt | IsRing(crc, healthy, rebuilt) && CollisionFree(rebuilt)
      ensures Successor(kept, key) == Successor(rebuilt, key)
    {
      SkippingIsRebuilding(crc, dests, valid, ring, rebuilt, key);
    }
  }

  lemma {:induction false} HealthyAreKept(dests: seq<DestinationRef>, pools: map<string, seq<bool>>, valid: set<string>)
    requires forall d :: d in dests ==> (d.id in valid <==> Healthy(pools, d.id))
    ensures HealthyDests(dests, pools) == KeepDests(dests, valid)
  {
    if dests != [] {
      assert dests == dests[..|dests| - 1] + [dests[|dests| - 1]];
      HealthyAreKept(dests[..|dests| - 1], pools, valid);
    }
  }

  // ----- Decimal keys -----

  function Digit(d: nat): char
    requires d < 10
  {
    '0' + d as char
  }

  function Decimal(n: nat): (s: string)
    ensures s != [] && ':' !in s
  {
    if n < 10 then [Digit(n)] else Decimal(n / 10) + [Digit(n % 10)]
  }

  lemma {:induction false} DecimalRoundTrip(n: nat)
    ensures Number(Decimal(n)) == Some(n) && (Decimal(n)[0] == '0' ==> Decimal(n) == "0")
  {
    if n < 10 {
      assert [Digit(n)][..0] == [];
    } else {
      DecimalRoundTrip(n / 10);
      assert Decimal(n)[..|Decimal(n)| - 1] == Decimal(n / 10);
    }
  }

  lemma LastColon(id: string, v: nat)
    ensures VnodeKey(id, v)[|id|] == ':'
    ensures forall k :: |id| < k < |VnodeKey(id, v)| ==> VnodeKey(id, v)[k] != ':'
  {
    forall k | |id| < k < |VnodeKey(id, v)| ensures VnodeKey(id, v)[k] != ':' {
      assert VnodeKey(id, v)[k] == Decimal(v)[k - |id| - 1];
    }
  }

  /** Virtual nodes have distinct keys, so only a hash collision can make two nodes meet. */
  lemma VnodeKeysDistinct(id: string, v: nat, id': string, v': nat)
    ensures VnodeKey(id, v) == VnodeKey(id', v') <==> id == id' && v == v'
  {
    if VnodeKey(id, v) == VnodeKey(id', v') {
      var s, t := VnodeKey(id, v), VnodeKey(id', v');
      LastColon(id, v);
      LastColon(id', v');
      assert id == s[..|id|] && id' == t[..|id'|];
      assert Decimal(v) == s[|id| + 1..] && Decimal(v') == t[|id'| + 1..];
      DecimalRoundTrip(v);
      DecimalRoundTrip(v');
    }
  }

  function Reversed(s: string): (r: string)
    ensures |r| == |s| && forall i :: 0 <= i < |s| ==> r[i] == s[|s| - 1 - i]
  {
    if s == [] then [] else [s[|s| - 1]] + Reversed(s[..|s| - 1])
  }

  lemma DigitFirst(m: nat, buf: string)
    requires m > 0
    ensures Decimal(m) + Reversed(buf) ==
      (if m / 10 == 0 then [] else Decimal(m / 10)) + Reversed(buf + [Digit(m % 10)])
  {
    var d := Digit(m % 10);
    assert (buf + [d])[..|buf|] == buf;
    assert Reversed(buf + [d]) == [d] + Reversed(buf);
  }

  method Itoa(n: nat) returns (s: string)
    ensures s == Decimal(n)
  {
    if n < 10 {
      return [Digit(n)];
    }
    var buf, m := [], n;
    while m > 0
      invariant (if m == 0 then [] else Decimal(m)) + Reversed(buf) == Decimal(n)
    {
      DigitFirst(m, buf);
      buf := buf + [Digit(m % 10)];
      m := m / 10;
    }
    s := Reverse(buf);
  }

  /** The closing loop of `itoa`, which swaps the ends inwards. */
  method Reverse(digits: string) returns (buf: string)
    ensures buf == Reversed(digits)
  {
    buf := digits;
    var i, j := 0, |buf| - 1;
    while i < j
      invariant 0 <= i <= |digits| == |buf| && j == |digits| - 1 - i
      invariant forall k :: i <= k <= j ==> buf[k] == digits[k]
      invariant forall k :: 0 <= k < i ==> buf[k] == digits[|digits| - 1 - k]
      invariant forall k :: j < k < |digits| ==> buf[k] == digits[|digits| - 1 - k]
      decreases j - i
    {
      buf := buf[i := buf[j]][j := buf[i]];
      i, j := i + 1, j - 1;
    }
  }
}
