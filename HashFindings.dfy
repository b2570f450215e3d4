/**
 * Unlinking a node from its chain as the hash map's source writes
 * `remove`. When the node has a predecessor, that predecessor's `next` is
 * pointed at itself, not at the node's successor. In both cases, the head
 * one included, the successor's `prev` is pointed at itself, not at the
 * node's predecessor (null for a new head). The model's
 * `HashChains.Unlinked` is the intended removal.
 */
module HashFindings {
  import opened HashChains

  /** A chain node in an arena of nodes: its entry and its two links (`NIL` for none). */
  datatype ChainNode<K, V> = ChainNode(entry: (K, V), next: int, prev: int)

  /** The entries met following `next` from `n`, for at most `fuel` nodes. */
  function Walk<K, V>(ns: seq<ChainNode<K, V>>, n: int, fuel: nat): seq<(K, V)>
    decreases fuel
  {
    if fuel == 0 || n < 0 || n >= |ns| then [] else [ns[n].entry] + Walk(ns, ns[n].next, fuel - 1)
  }

  /** The bucket's head and the arena after `remove` unlinks node `x`, as written. */
  function UnlinkAsWritten<K, V>(ns: seq<ChainNode<K, V>>, head: int, x: int): (r: (seq<ChainNode<K, V>>, int))
    requires 0 <= x < |ns|
    requires NIL <= ns[x].next < |ns| && NIL <= ns[x].prev < |ns|
    ensures |r.0| == |ns| && r.0[x].next == NIL && r.0[x].entry == ns[x].entry
    ensures forall j | 0 <= j < |ns| && j != x && j != ns[x].prev && j != ns[x].next :: r.0[j] == ns[j]
    ensures ns[x].prev != NIL && ns[x].prev != x ==> r.0[ns[x].prev].next == ns[x].prev
    ensures ns[x].next != NIL && ns[x].next != x ==> r.0[ns[x].next].prev == ns[x].next
    ensures r.1 == (if ns[x].prev == NIL then ns[x].next else head)
  {
    var p, q := ns[x].prev, ns[x].next;
    var ns1 := if p == NIL then ns else ns[p := ns[p].(next := p)];
    var head1 := if p == NIL then q else head;
    var ns2 := if q == NIL then ns1 else ns1[q := ns1[q].(prev := q)];
    (ns2[x := ns2[x].(next := NIL)], head1)
  }

  /** The same unlink with the links the doubly linked chain needs. */
  function Unlink<K, V>(ns: seq<ChainNode<K, V>>, head: int, x: int): (seq<ChainNode<K, V>>, int)
    requires 0 <= x < |ns|
    requires NIL <= ns[x].next < |ns| && NIL <= ns[x].prev < |ns|
  {
    var p, q := ns[x].prev, ns[x].next;
    var ns1 := if p == NIL then ns else ns[p := ns[p].(next := q)];
    var head1 := if p == NIL then q else head;
    var ns2 := if q == NIL then ns1 else ns1[q := ns1[q].(prev := p)];
    (ns2[x := ns2[x].(next := NIL)], head1)
  }

  /**
   * For every chain: as written, a predecessor is left pointing at itself
   * where the corrected unlink points it at the successor, and a successor
   * is left pointing back at itself where the corrected unlink points it at
   * the predecessor (null for a new head).
   */
  lemma UnlinkAsWrittenSelfLinks<K, V>(ns: seq<ChainNode<K, V>>, head: int, x: int)
    requires 0 <= x < |ns|
    requires NIL <= ns[x].next < |ns| && NIL <= ns[x].prev < |ns|
    requires ns[x].prev != x && ns[x].next != x && (ns[x].prev == NIL || ns[x].prev != ns[x].next)
    ensures ns[x].prev != NIL ==>
      UnlinkAsWritten(ns, head, x).0[ns[x].prev].next == ns[x].prev && Unlink(ns, head, x).0[ns[x].prev].next == ns[x].next
    ensures ns[x].next != NIL ==>
      UnlinkAsWritten(ns, head, x).0[ns[x].next].prev == ns[x].next && Unlink(ns, head, x).0[ns[x].next].prev == ns[x].prev
    ensures UnlinkAsWritten(ns, head, x).1 == Unlink(ns, head, x).1
  {
  }

  /** The chain 10, 20, 30 of one bucket, as three `operator[]` calls build it. */
  function Chain(): seq<ChainNode<int, int>> {
    [ChainNode((10, 1), 1, NIL), ChainNode((20, 2), 2, 0), ChainNode((30, 3), NIL, 1)]
  }

  /**
   * Removing 20: as written, the chain from the head runs 10, 10, 10 and
   * never reaches 30, and 30's back link points at itself. The corrected
   * unlink leaves the chain 10, 30, which is `Unlinked` on that bucket.
   */
  lemma RemoveMiddleLoops()
    ensures Walk(Chain(), 0, 3) == [(10, 1), (20, 2), (30, 3)]
    ensures Walk(UnlinkAsWritten(Chain(), 0, 1).0, 0, 3) == [(10, 1), (10, 1), (10, 1)]
    ensures UnlinkAsWritten(Chain(), 0, 1).0[2].prev == 2
    ensures Walk(Unlink(Chain(), 0, 1).0, 0, 3) == [(10, 1), (30, 3)]
    ensures Walk(Unlink(Chain(), 0, 1).0, 0, 3) == Unlinked([[(10, 1), (20, 2), (30, 3)]], 0, 1)[0]
    ensures Unlink(Chain(), 0, 1).0[2].prev == 0
  {
  }

  /** The chain 10, 20 of one bucket. */
  function Two(): seq<ChainNode<int, int>> {
    [ChainNode((10, 1), 1, NIL), ChainNode((20, 2), NIL, 0)]
  }

  /**
   * Removing the head 10 and then 20: as written, the first removal leaves
   * the new head 20 with a back link to itself. The second removal then
   * takes the branch for a node with a predecessor and never resets the
   * bucket head, which still names the deleted node 20. The corrected unlink
   * clears the back link, and the second removal empties the bucket, as
   * `Unlinked` does.
   */
  lemma RemoveHeadSelfLinks()
    ensures Walk(Two(), 0, 2) == [(10, 1), (20, 2)]
    ensures UnlinkAsWritten(Two(), 0, 0).1 == 1 && UnlinkAsWritten(Two(), 0, 0).0[1].prev == 1
    ensures UnlinkAsWritten(UnlinkAsWritten(Two(), 0, 0).0, 1, 1).1 == 1
    ensures Unlink(Two(), 0, 0).1 == 1 && Unlink(Two(), 0, 0).0[1].prev == NIL
    ensures Walk(Unlink(Two(), 0, 0).0, 1, 2) == Unlinked([[(10, 1), (20, 2)]], 0, 0)[0]
    ensures Unlink(Unlink(Two(), 0, 0).0, 1, 1).1 == NIL
    ensures Walk(Unlink(Unlink(Two(), 0, 0).0, 1, 1).0, NIL, 2) == Unlinked([[(20, 2)]], 0, 0)[0]
  {
  }
}
