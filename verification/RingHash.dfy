/** `RingHashBalancer`: a ring on which all destinations share a fixed number of virtual nodes. */
module RingHash {
  import opened Basics
  import opened Ring

  // ----- The nodes -----

  /** The nodes of each of `n` destinations on a ring of this size. */
  function SharedVnodes(size: nat, n: nat): (v: nat)
    requires n > 0
    ensures v >= 1
  {
    if size / n < 1 then 1 else size / n
  }

  function UniformNodes(crc: string -> uint32, ids: seq<string>, v: nat): seq<Node> {
    if ids == [] then []
    else UniformNodes(crc, ids[..|ids| - 1], v) + NodesOf(crc, ids[|ids| - 1], v)
  }

  /** One of the first `v` nodes of a listed destination. */
  ghost predicate IsUniformNode(crc: string -> uint32, ids: seq<string>, v: nat, e: Node) {
    e.id in ids && exists k: nat :: k < v && e.hash == crc(VnodeKey(e.id, k))
  }

  lemma {:induction false} InUniformNodes(crc: string -> uint32, ids: seq<string>, v: nat, e: Node)
    ensures e in UniformNodes(crc, ids, v) <==> IsUniformNode(crc, ids, v, e)
  {
    if ids != [] {
      var rest, last := ids[..|ids| - 1], ids[|ids| - 1];
      InUniformNodes(crc, rest, v, e);
      InNodesOf(crc, last, v, e);
      assert ids == rest + [last];
    }
  }

  lemma {:induction false} UniformCount(crc: string -> uint32, ids: seq<string>, v: nat)
    ensures |UniformNodes(crc, ids, v)| == |ids| * v
  {
    if ids != [] {
      UniformCount(crc, ids[..|ids| - 1], v);
      assert |ids| * v == (|ids| - 1) * v + v;
    }
  }

  /** Any arrangement of the nodes sorted by hash. */
  ghost predicate IsUniformRing(crc: string -> uint32, ids: seq<string>, size: nat, r: seq<Node>) {
    if ids == [] then r == []
    else multiset(r) == multiset(UniformNodes(crc, ids, SharedVnodes(size, |ids|))) && Sorted(r)
  }

  /** The number of nodes of each of `n` destinations, in the words of the source. */
  function ShareDue(size: nat, n: nat): nat
    requires n > 0
  {
    if size < n then 1 else size / n
  }

  ghost predicate DueShare(crc: string -> uint32, ids: seq<string>, size: nat, e: Node)
    requires ids != []
  {
    e.id in ids && exists k: nat :: k < ShareDue(size, |ids|) && e.hash == crc(e.id + ":" + Decimal(k))
  }

  lemma NodeIsShare(crc: string -> uint32, ids: seq<string>, size: nat, e: Node)
    requires ids != []
    ensures IsUniformNode(crc, ids, SharedVnodes(size, |ids|), e) <==> DueShare(crc, ids, size, e)
  {
    SharedIsDue(size, |ids|);
    if IsUniformNode(crc, ids, SharedVnodes(size, |ids|), e) {
      var k: nat :| k < SharedVnodes(size, |ids|) && e.hash == crc(VnodeKey(e.id, k));
      assert e.hash == crc(e.id + ":" + Decimal(k));
    }
    if DueShare(crc, ids, size, e) {
      var k: nat :| k < ShareDue(size, |ids|) && e.hash == crc(e.id + ":" + Decimal(k));
      assert e.hash == crc(VnodeKey(e.id, k));
    }
  }

  lemma SharedIsDue(size: nat, n: nat)
    requires n > 0
    ensures SharedVnodes(size, n) == ShareDue(size, n)
  {
  }

  /** Exactly the due nodes are on the ring, and every destination's as often as it is listed. */
  lemma UniformRing(crc: string -> uint32, ids: seq<string>, size: nat, r: seq<Node>)
    requires ids != [] && IsUniformRing(crc, ids, size, r)
    ensures |r| == |ids| * ShareDue(size, |ids|)
    ensures forall e :: e in r <==> DueShare(crc, ids, size, e)
  {
    var nodes := UniformNodes(crc, ids, SharedVnodes(size, |ids|));
    UniformCount(crc, ids, SharedVnodes(size, |ids|));
    SharedIsDue(size, |ids|);
    assert |multiset(r)| == |r| && |multiset(nodes)| == |nodes|;
    forall e ensures e in r <==> DueShare(crc, ids, size, e) {
      InUniformRing(crc, ids, size, r, e);
      NodeIsShare(crc, ids, size, e);
    }
  }

  lemma InUniformRing(crc: string -> uint32, ids: seq<string>, size: nat, r: seq<Node>, e: Node)
    requires ids != [] && IsUniformRing(crc, ids, size, r)
    ensures e in r <==> IsUniformNode(crc, ids, SharedVnodes(size, |ids|), e)
  {
    var nodes := UniformNodes(crc, ids, SharedVnodes(size, |ids|));
    assert e in r <==> e in multiset(r);
    assert e in nodes <==> e in multiset(nodes);
    InUniformNodes(crc, ids, SharedVnodes(size, |ids|), e);
  }

  // ----- The balancer -----

  class RingHashBalancer {
    const ringSize: nat
    const crc: string -> uint32
    var ring: seq<Node>

    constructor (minSize: int, maxSize: int, crc: string -> uint32)
      ensures ring == [] && this.crc == crc
      ensures var lo, hi := if minSize <= 0 then 1024 else minSize, if maxSize <= 0 then 8388608 else maxSize;
        ringSize == if lo > hi then hi else lo
    {
      var lo, hi := minSize, maxSize;
      if lo <= 0 {
        lo := 1024;
      }
      if hi <= 0 {
        hi := 8388608;
      }
      this.ringSize := if lo > hi then hi else lo;
      this.crc := crc;
      ring := [];
    }

    method Build(ids: seq<string>)
      modifies this
      ensures IsUniformRing(crc, ids, ringSize, ring)
      ensures ids != [] ==> |ring| == |ids| * ShareDue(ringSize, |ids|)
      ensures ids != [] ==> forall e :: e in ring <==> DueShare(crc, ids, ringSize, e)
    {
      ring := [];
      if |ids| == 0 {
        return;
      }
      var vnodes := ringSize / |ids|;
      if vnodes < 1 {
        vnodes := 1;
      }
      var entries := CollectNodes(crc, ids, vnodes);
      ring := SortByHash(entries);
      UniformRing(crc, ids, ringSize, ring);
    }

    static method CollectNodes(crc: string -> uint32, ids: seq<string>, vnodes: nat) returns (entries: seq<Node>)
      ensures entries == UniformNodes(crc, ids, vnodes)
    {
      entries := [];
      for i := 0 to |ids|
        invariant entries == UniformNodes(crc, ids[..i], vnodes)
      {
        assert ids[..i + 1][..i] == ids[..i];
        var nodes := AppendNodes(crc, ids[i], vnodes);
        entries := entries + nodes;
      }
      assert ids[..|ids|] == ids;
    }

    static method AppendNodes(crc: string -> uint32, id: string, n: nat) returns (nodes: seq<Node>)
      ensures nodes == NodesOf(crc, id, n)
    {
      nodes := [];
      for v := 0 to n
        invariant nodes == NodesOf(crc, id, v)
      {
        nodes := nodes + [Node(crc(VnodeKey(id, v)), id)];
      }
    }

    /** The destination whose endpoint is used; none stands for the random fallback. */
    method PickByHash(h: uint32) returns (id: Option<string>)
      requires Sorted(ring)
      ensures id == if ring == [] then None else Some(Successor(ring, h))
    {
      if |ring| == 0 {
        return None;
      }
      var idx := Search(ring, h);
      if idx >= |ring| {
        idx := 0;
      }
      return Some(ring[idx].id);
    }
  }

  // ----- Adding a destination -----

  /** As long as the number of nodes per destination stays the same, an added destination attracts keys only to
      itself. */
  lemma AddedAttracts(crc: string -> uint32, ids: seq<string>, c: string, size: nat,
                      r: seq<Node>, r': seq<Node>, key: uint32)
    requires ids != [] && SharedVnodes(size, |ids|) == SharedVnodes(size, |ids| + 1)
    requires IsUniformRing(crc, ids, size, r) && IsUniformRing(crc, ids + [c], size, r') && CollisionFree(r')
    ensures Successor(r', key) != Successor(r, key) ==> Successor(r', key) == c
  {
    FirstNodeOnRing(crc, ids, size, r, ids[0]);
    forall x | x in r ensures x in r' {
      InUniformRing(crc, ids, size, r, x);
      InUniformRing(crc, ids + [c], size, r', x);
    }
    var e := AddedNodesOnlyAttract(r, r', key);
    InUniformRing(crc, ids, size, r, e);
    InUniformRing(crc, ids + [c], size, r', e);
  }

  lemma FirstNodeOnRing(crc: string -> uint32, ids: seq<string>, size: nat, r: seq<Node>, id: string)
    requires id in ids && IsUniformRing(crc, ids, size, r)
    ensures Node(crc(VnodeKey(id, 0)), id) in r
  {
    InUniformRing(crc, ids, size, r, Node(crc(VnodeKey(id, 0)), id));
  }

  /** A hash that puts one node of `a` at 0, the first node of `b` at 1 and everything else at 2. */
  function Placing(a: string, k: nat, b: string): string -> uint32 {
    s => if s == VnodeKey(a, k) then 0 else if s == VnodeKey(b, 0) then 1 else 2
  }

  lemma PlacedAt(a: string, k: nat, b: string, id: string, v: nat)
    requires a != b
    ensures Placing(a, k, b)(VnodeKey(id, v)) == if id == a && v == k then 0 else if id == b && v == 0 then 1 else 2
  {
    VnodeKeysDistinct(id, v, a, k);
    VnodeKeysDistinct(id, v, b, 0);
  }

  /** Once the number drops, the others lose nodes: whatever is added, for some hash a key moves from one old
      destination to another. */
  lemma ShrinkingMovesKeys(ids: seq<string>, a: string, b: string, c: string, size: nat, r: seq<Node>, r': seq<Node>)
    requires a != b && a in ids && b in ids && SharedVnodes(size, |ids|) > SharedVnodes(size, |ids| + 1)
    requires IsUniformRing(Placing(a, SharedVnodes(size, |ids|) - 1, b), ids, size, r)
    requires IsUniformRing(Placing(a, SharedVnodes(size, |ids|) - 1, b), ids + [c], size, r')
    ensures Successor(r, 0) == a && Successor(r', 0) == b
  {
    var k, ids' := SharedVnodes(size, |ids|) - 1, ids + [c];
    OwnerAtZero(ids, a, k, b, size, r);
    assert b in ids' && |ids'| == |ids| + 1;
    OwnerAtOne(ids', a, k, b, size, r');
  }

  /** The node at the least distance from key 0 has the least hash. */
  lemma LeastHash(r: seq<Node>, x: Node) returns (e: Node)
    requires Sorted(r) && x in r
    ensures e in r && e.id == Successor(r, 0) && e.hash <= x.hash
  {
    e := SuccessorIsNearest(r, 0);
    assert Distance(0, e.hash) <= Distance(0, x.hash);
  }

  lemma OwnerAtZero(ids: seq<string>, a: string, k: nat, b: string, size: nat, r: seq<Node>)
    requires a != b && a in ids && k < SharedVnodes(size, |ids|) && IsUniformRing(Placing(a, k, b), ids, size, r)
    ensures Successor(r, 0) == a
  {
    PlacedAt(a, k, b, a, k);
    InUniformRing(Placing(a, k, b), ids, size, r, Node(0, a));
    var e := LeastHash(r, Node(0, a));
    InUniformRing(Placing(a, k, b), ids, size, r, e);
    PlacedNode(a, k, b, ids, SharedVnodes(size, |ids|), e);
  }

  lemma OwnerAtOne(ids: seq<string>, a: string, k: nat, b: string, size: nat, r: seq<Node>)
    requires a != b && b in ids && k >= SharedVnodes(size, |ids|) && IsUniformRing(Placing(a, k, b), ids, size, r)
    ensures Successor(r, 0) == b
  {
    PlacedAt(a, k, b, b, 0);
    InUniformRing(Placing(a, k, b), ids, size, r, Node(1, b));
    var e := LeastHash(r, Node(1, b));
    InUniformRing(Placing(a, k, b), ids, size, r, e);
    PlacedNode(a, k, b, ids, SharedVnodes(size, |ids|), e);
  }

  lemma PlacedNode(a: string, k: nat, b: string, ids: seq<string>, v: nat, e: Node)
    requires a != b && IsUniformNode(Placing(a, k, b), ids, v, e)
    ensures e.hash == 0 ==> e.id == a && k < v
    ensures e.hash == 1 ==> e.id == b
  {
    var j: nat :| j < v && e.hash == Placing(a, k, b)(VnodeKey(e.id, j));
    PlacedAt(a, k, b, e.id, j);
  }

  /** Four nodes shared by two destinations and then by three: key 0 moves from `a` to `b` when `c` is added. */
  lemma ShrinkingExample(r: seq<Node>, r': seq<Node>)
    requires var crc := Placing("a", 1, "b");
      IsUniformRing(crc, ["a", "b"], 4, r) && IsUniformRing(crc, ["a", "b", "c"], 4, r')
    ensures Successor(r, 0) == "a" && Successor(r', 0) == "b"
  {
    var ids := ["a", "b"];
    assert "a" in ids && "b" in ids && "a" != "b";
    assert ids + ["c"] == ["a", "b", "c"];
    assert SharedVnodes(4, 2) == 2 && SharedVnodes(4, 3) == 1;
    ShrinkingMovesKeys(ids, "a", "b", "c", 4, r, r');
  }
}
