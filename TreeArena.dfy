/**
 * The node store of TreeMap.
 *
 * Nodes live in an arena `seq<TreeNode<V>>` and point at each other through
 * handles (indices), `NIL` standing for `nullptr`. `Wired(ns, t, p)`
 * says that the tree value `t` is exactly what the arena links describe:
 * every branch's slot holds its key and value, the handles of its two
 * children, and the handle of its parent (so the parent links are the exact
 * inverse of the child links, and only the top node has parent `p`).
 * The lemmas here tell how local relinkings of the arena move the tree.
 */
module TreeArena {
  import opened BinaryTree

  /** One node: key, mapped value, and its three links. */
  datatype TreeNode<V> = TreeNode(key: int, value: V, left: int, right: int, parent: int)

  ghost predicate Wired<V>(ns: seq<TreeNode<V>>, t: Tree<V>, p: int) {
    match t
    case Leaf => true
    case Branch(l, i, k, v, r) =>
      && 0 <= i < |ns|
      && ns[i] == TreeNode(k, v, RootId(l), RootId(r), p)
      && Wired(ns, l, i) && Wired(ns, r, i)
  }

  /** A whole tree laid out in the arena: no handle twice, and the root has no parent. */
  ghost predicate Linked<V>(ns: seq<TreeNode<V>>, t: Tree<V>) {
    Distinct(t) && Wired(ns, t, NIL)
  }

  /** The two arenas hold the same nodes at the handles of `s`. */
  ghost predicate Agree<V>(ns: seq<TreeNode<V>>, ns': seq<TreeNode<V>>, s: set<int>) {
    forall i | i in s :: 0 <= i < |ns| && 0 <= i < |ns'| && ns'[i] == ns[i]
  }

  /**
   * Every handle of a laid-out tree indexes the arena and holds one of the
   * tree's keys, and every node but the top one has its parent inside the tree.
   */
  lemma {:induction false} WiredBounds<V>(ns: seq<TreeNode<V>>, t: Tree<V>, p: int)
    requires Wired(ns, t, p)
    ensures forall i | i in Ids(t) :: 0 <= i < |ns| && ns[i].key in Keys(t)
    ensures forall i | i in Ids(t) :: ns[i].parent in Ids(t) || (i == RootId(t) && ns[i].parent == p)
  {
    match t
    case Leaf =>
    case Branch(l, i, k, v, r) =>
      WiredBounds(ns, l, i);
      WiredBounds(ns, r, i);
  }

  /** Changing slots outside a laid-out tree does not disturb it. */
  lemma {:induction false} WiredFrame<V>(ns: seq<TreeNode<V>>, ns': seq<TreeNode<V>>, t: Tree<V>, p: int)
    requires Wired(ns, t, p) && Agree(ns, ns', Ids(t))
    ensures Wired(ns', t, p)
  {
    match t
    case Leaf =>
    case Branch(l, i, k, v, r) =>
      WiredFrame(ns, ns', l, i);
      WiredFrame(ns, ns', r, i);
  }

  /** Hanging a laid-out tree below another parent only touches its top node's parent link. */
  lemma WiredReparent<V>(ns: seq<TreeNode<V>>, ns': seq<TreeNode<V>>, t: Tree<V>, p: int, q: int)
    requires Wired(ns, t, p) && Distinct(t)
    requires Agree(ns, ns', Ids(t) - {RootId(t)})
    requires t.Branch? ==> 0 <= t.id < |ns'| && ns'[t.id] == ns[t.id].(parent := q)
    ensures Wired(ns', t, q)
  {
    if t.Branch? {
      assert Ids(t.left) <= Ids(t) - {RootId(t)};
      assert Ids(t.right) <= Ids(t) - {RootId(t)};
      WiredFrame(ns, ns', t.left, t.id);
      WiredFrame(ns, ns', t.right, t.id);
    }
  }

  /** The subtree a search reaches is laid out below the parent the search reaches. */
  lemma {:induction false} WiredSubAt<V>(ns: seq<TreeNode<V>>, t: Tree<V>, k: int, p: int)
    requires Wired(ns, t, p)
    ensures Wired(ns, SubAt(t, k), ParentAt(t, k, p))
  {
    match t
    case Leaf =>
    case Branch(l, i, kt, v, r) =>
      if k != kt {
        if kt < k { WiredSubAt(ns, r, k, i); } else { WiredSubAt(ns, l, k, i); }
      }
  }

  /** A search either stops at the top, or below some node of the tree outside the subtree it reaches. */
  lemma {:induction false} ParentAtFacts<V>(t: Tree<V>, k: int, p: int)
    requires Distinct(t) && p !in Ids(t)
    ensures ParentAt(t, k, p) == p ==> SubAt(t, k) == t
    ensures ParentAt(t, k, p) != p ==> ParentAt(t, k, p) in Ids(t) - Ids(SubAt(t, k))
  {
    match t
    case Leaf =>
    case Branch(l, i, kt, v, r) =>
      if k != kt {
        if kt < k {
          ParentAtFacts(r, k, i);
          SubAtFacts(r, k);
        } else {
          ParentAtFacts(l, k, i);
          SubAtFacts(l, k);
        }
      }
  }

  /**
   * Below its parent, the subtree a search for `k` reaches hangs on the side
   * the key comparison chose, and (when it is a node) that side is the one
   * whose link equals its handle.
   */
  lemma {:induction false} SlotAt<V>(ns: seq<TreeNode<V>>, t: Tree<V>, k: int, p: int)
    requires Wired(ns, t, p) && Distinct(t) && p !in Ids(t)
    requires ParentAt(t, k, p) in Ids(t)
    ensures 0 <= ParentAt(t, k, p) < |ns|
    ensures ns[ParentAt(t, k, p)].key < k ==> ns[ParentAt(t, k, p)].right == RootId(SubAt(t, k))
    ensures !(ns[ParentAt(t, k, p)].key < k) ==> ns[ParentAt(t, k, p)].left == RootId(SubAt(t, k))
    ensures SubAt(t, k).Branch? ==> (ns[ParentAt(t, k, p)].left == SubAt(t, k).id <==> !(ns[ParentAt(t, k, p)].key < k))
  {
    WiredBounds(ns, t, p);
    match t
    case Leaf =>
    case Branch(l, i, kt, v, r) =>
      if k != kt {
        if kt < k {
          ParentAtFacts(r, k, i);
          if ParentAt(r, k, i) == i {
            WiredBounds(ns, r, i);
            WiredBounds(ns, l, i);
          } else {
            SlotAt(ns, r, k, i);
          }
        } else {
          ParentAtFacts(l, k, i);
          if ParentAt(l, k, i) == i {
            WiredBounds(ns, r, i);
            WiredBounds(ns, l, i);
          } else {
            SlotAt(ns, l, k, i);
          }
        }
      }
  }

  /**
   * Substituting `s` for the subtree a search for `k` reaches: when `s` is laid
   * out below the search's parent, that parent's slot on the search side now
   * holds `s`'s handle, and nothing else outside the replaced subtree moved,
   * the arena describes `ReplaceAt(t, k, s)`.
   */
  lemma {:induction false} ReplaceWired<V>(ns: seq<TreeNode<V>>, ns': seq<TreeNode<V>>, t: Tree<V>, k: int, s: Tree<V>, p: int)
    requires Wired(ns, t, p) && Distinct(t) && p !in Ids(t)
    requires Wired(ns', s, ParentAt(t, k, p))
    requires Agree(ns, ns', Ids(t) - Ids(SubAt(t, k)) - {ParentAt(t, k, p)})
    requires ParentAt(t, k, p) in Ids(t) ==>
      var q := ParentAt(t, k, p);
      && 0 <= q < |ns| && 0 <= q < |ns'|
      && ns'[q] == (if ns[q].key < k then ns[q].(right := RootId(s)) else ns[q].(left := RootId(s)))
    ensures Wired(ns', ReplaceAt(t, k, s), p)
    decreases t, 1
  {
    if t.Branch? && t.key < k {
      ReplaceWiredRight(ns, ns', t, k, s, p);
    } else if t.Branch? && k < t.key {
      ReplaceWiredLeft(ns, ns', t, k, s, p);
    }
  }

  /** `ReplaceWired` when the search goes right at the top node. */
  lemma {:induction false} ReplaceWiredRight<V>(ns: seq<TreeNode<V>>, ns': seq<TreeNode<V>>, t: Tree<V>, k: int, s: Tree<V>, p: int)
    requires Wired(ns, t, p) && Distinct(t) && p !in Ids(t)
    requires Wired(ns', s, ParentAt(t, k, p))
    requires Agree(ns, ns', Ids(t) - Ids(SubAt(t, k)) - {ParentAt(t, k, p)})
    requires ParentAt(t, k, p) in Ids(t) ==>
      var q := ParentAt(t, k, p);
      && 0 <= q < |ns| && 0 <= q < |ns'|
      && ns'[q] == (if ns[q].key < k then ns[q].(right := RootId(s)) else ns[q].(left := RootId(s)))
    requires t.Branch? && t.key < k
    ensures Wired(ns', ReplaceAt(t, k, s), p)
    decreases t, 0
  {
    var i, r := t.id, t.right;
    ParentAtFacts(t, k, p);
    SubAtFacts(r, k);
    ParentAtFacts(r, k, i);
    assert Ids(t.left) <= Ids(t) - Ids(SubAt(t, k)) - {ParentAt(t, k, p)};
    WiredFrame(ns, ns', t.left, i);
    if ParentAt(r, k, i) != i {
      assert Wired(ns, r, i) && Distinct(r) && i !in Ids(r);
      assert ParentAt(r, k, i) == ParentAt(t, k, p) && SubAt(r, k) == SubAt(t, k);
      assert Ids(r) - Ids(SubAt(r, k)) - {ParentAt(r, k, i)} <= Ids(t) - Ids(SubAt(t, k)) - {ParentAt(t, k, p)};
      ReplaceWired(ns, ns', r, k, s, i);
    }
  }

  /** `ReplaceWired` when the search goes left at the top node. */
  lemma {:induction false} ReplaceWiredLeft<V>(ns: seq<TreeNode<V>>, ns': seq<TreeNode<V>>, t: Tree<V>, k: int, s: Tree<V>, p: int)
    requires Wired(ns, t, p) && Distinct(t) && p !in Ids(t)
    requires Wired(ns', s, ParentAt(t, k, p))
    requires Agree(ns, ns', Ids(t) - Ids(SubAt(t, k)) - {ParentAt(t, k, p)})
    requires ParentAt(t, k, p) in Ids(t) ==>
      var q := ParentAt(t, k, p);
      && 0 <= q < |ns| && 0 <= q < |ns'|
      && ns'[q] == (if ns[q].key < k then ns[q].(right := RootId(s)) else ns[q].(left := RootId(s)))
    requires t.Branch? && k < t.key
    ensures Wired(ns', ReplaceAt(t, k, s), p)
    decreases t, 0
  {
    var i, l := t.id, t.left;
    ParentAtFacts(t, k, p);
    SubAtFacts(l, k);
    ParentAtFacts(l, k, i);
    assert Ids(t.right) <= Ids(t) - Ids(SubAt(t, k)) - {ParentAt(t, k, p)};
    WiredFrame(ns, ns', t.right, i);
    if ParentAt(l, k, i) != i {
      assert Wired(ns, l, i) && Distinct(l) && i !in Ids(l);
      assert ParentAt(l, k, i) == ParentAt(t, k, p) && SubAt(l, k) == SubAt(t, k);
      assert Ids(l) - Ids(SubAt(l, k)) - {ParentAt(l, k, i)} <= Ids(t) - Ids(SubAt(t, k)) - {ParentAt(t, k, p)};
      ReplaceWired(ns, ns', l, k, s, i);
    }
  }

  /**
   * Hanging a fresh leaf for an absent key below the node where the search
   * for that key ends, as `insert` links it, lays out the inserted tree.
   */
  lemma HangWired<V>(ns: seq<TreeNode<V>>, ns': seq<TreeNode<V>>, t: Tree<V>, k: int, v: V, n: int)
    requires Linked(ns, t) && t != Leaf && SubAt(t, k) == Leaf
    requires 0 <= n < |ns| && n !in Ids(t) && ns[n] == TreeNode(k, v, NIL, NIL, NIL)
    requires var p := ParentAt(t, k, NIL);
      && 0 <= p < |ns|
      && ns' == (if ns[p].key < k then ns[p := ns[p].(right := n)] else ns[p := ns[p].(left := n)])[n := ns[n].(parent := p)]
    ensures Wired(ns', Inserted(t, k, v, n), NIL)
  {
    var p := ParentAt(t, k, NIL);
    var s := Branch(Leaf, n, k, v, Leaf);
    WiredBounds(ns, t, NIL);
    ParentAtFacts(t, k, NIL);
    assert p in Ids(t) && p != n;
    assert Wired(ns', s, p);
    assert Agree(ns, ns', Ids(t) - Ids(SubAt(t, k)) - {p});
    ReplaceWired(ns, ns', t, k, s, NIL);
  }

  /** In an ordered tree, a search for the key a node holds reaches that very node. */
  lemma {:induction false} HandleAt<V>(ns: seq<TreeNode<V>>, t: Tree<V>, p: int, i: int)
    requires Wired(ns, t, p) && Distinct(t) && Ordered(t) && i in Ids(t)
    ensures 0 <= i < |ns| && SubAt(t, ns[i].key).Branch? && SubAt(t, ns[i].key).id == i
  {
    WiredBounds(ns, t, p);
    match t
    case Leaf =>
    case Branch(l, j, kt, v, r) =>
      if i != j {
        if i in Ids(l) {
          WiredBounds(ns, l, j);
          HandleAt(ns, l, j, i);
        } else {
          WiredBounds(ns, r, j);
          HandleAt(ns, r, j, i);
        }
      }
  }

  /** Each item of the traversal of a laid-out tree is the slot it names. */
  lemma {:induction false} WiredItems<V>(ns: seq<TreeNode<V>>, t: Tree<V>, p: int)
    requires Wired(ns, t, p)
    ensures forall j | 0 <= j < |Items(t)| ::
      0 <= Items(t)[j].id < |ns| && ns[Items(t)[j].id].key == Items(t)[j].key && ns[Items(t)[j].id].value == Items(t)[j].value
  {
    match t
    case Leaf =>
    case Branch(l, i, k, v, r) =>
      WiredItems(ns, l, i);
      WiredItems(ns, r, i);
      var s := Items(t);
      assert s == Items(l) + [Item(i, k, v)] + Items(r);
      forall j | 0 <= j < |s| ensures 0 <= s[j].id < |ns| && ns[s[j].id].key == s[j].key && ns[s[j].id].value == s[j].value {
        if j < |Items(l)| {
          assert s[j] == Items(l)[j];
        } else if j > |Items(l)| {
          assert s[j] == Items(r)[j - |Items(l)| - 1];
        }
      }
  }

  /** A node of a laid-out tree rebuilt from a zipper hangs below the first frame's node. */
  lemma {:induction false} PlugWired<V>(ns: seq<TreeNode<V>>, path: seq<Frame<V>>, s: Tree<V>, p: int)
    requires Wired(ns, Plug(path, s), p)
    ensures Wired(ns, s, if path == [] then p else path[0].id)
    decreases |path|
  {
    if path != [] {
      PlugWired(ns, path[1..], Fill(path[0], s), p);
    }
  }

  /**
   * One step up from the subtree `c` of a laid-out tree: its parent link
   * names the first frame's node, which holds `c` on the side the frame says.
   */
  lemma ClimbFacts<V>(ns: seq<TreeNode<V>>, up: seq<Frame<V>>, c: Tree<V>)
    requires Linked(ns, Plug(up, c)) && c.Branch?
    ensures 0 <= c.id < |ns| && ns[c.id].parent == ParentId(up)
    ensures up == [] <==> ParentId(up) == NIL
    ensures up != [] ==> 0 <= up[0].id < |ns| && (ns[up[0].id].right == c.id <==> up[0].RightOf?)
    ensures up != [] ==> (ns[up[0].id].left == c.id <==> up[0].LeftOf?)
  {
    PlugWired(ns, up, c, NIL);
    if up != [] {
      PlugWired(ns, up[1..], Fill(up[0], c), NIL);
      PlugDistinct(up, c);
    }
  }

  /**
   * The standard transplant: the node `u` is unhooked from its parent (or
   * from the root) and the subtree at `w` takes its place, `w`'s parent link
   * following. Returns the new arena and the new root handle.
   */
  function Transplanted<V>(ns: seq<TreeNode<V>>, root: int, u: int, w: int): (seq<TreeNode<V>>, int)
    requires 0 <= u < |ns| && NIL <= w < |ns|
    requires ns[u].parent == NIL || 0 <= ns[u].parent < |ns|
  {
    var p := ns[u].parent;
    var ns1 :=
      if p == NIL then ns
      else if ns[p].left == u then ns[p := ns[p].(left := w)]
      else ns[p := ns[p].(right := w)];
    var ns2 := if w == NIL then ns1 else ns1[w := ns1[w].(parent := p)];
    (ns2, if p == NIL then w else root)
  }

  /** A transplant touches only the old parent's slot and the new subtree's top. */
  lemma TransplantedFrame<V>(ns: seq<TreeNode<V>>, root: int, u: int, w: int)
    requires 0 <= u < |ns| && NIL <= w < |ns|
    requires ns[u].parent == NIL || 0 <= ns[u].parent < |ns|
    ensures |Transplanted(ns, root, u, w).0| == |ns|
    ensures forall i | 0 <= i < |ns| && i != ns[u].parent && i != w :: Transplanted(ns, root, u, w).0[i] == ns[i]
  {
  }

  /**
   * Transplanting for the node a search for `k` reaches a subtree `s` already
   * laid out in the arena, with no handle in common with the rest of the tree,
   * substitutes `s` for that node's subtree in the tree the arena describes.
   * `ns0` is the arena the tree was laid out in; `ns` may differ from it
   * inside the replaced subtree only.
   */
  lemma TransplantWired<V>(ns0: seq<TreeNode<V>>, ns: seq<TreeNode<V>>, root: int, t: Tree<V>, k: int, s: Tree<V>, p: int, x: int)
    requires Wired(ns0, t, p) && Distinct(t) && p !in Ids(t)
    requires SubAt(t, k).Branch? && (ParentAt(t, k, p) in Ids(t) || p == NIL)
    requires Agree(ns0, ns, Ids(t) - Ids(SubAt(t, k)))
    requires 0 <= SubAt(t, k).id < |ns| && ns[SubAt(t, k).id].parent == ParentAt(t, k, p)
    requires ParentAt(t, k, p) == NIL || 0 <= ParentAt(t, k, p) < |ns|
    requires Wired(ns, s, x) && Distinct(s) && NIL <= RootId(s) < |ns|
    requires Ids(s) !! (Ids(t) - Ids(SubAt(t, k)))
    requires p == NIL ==> root == RootId(t)
    ensures Wired(Transplanted(ns, root, SubAt(t, k).id, RootId(s)).0, ReplaceAt(t, k, s), p)
    ensures p == NIL ==> Transplanted(ns, root, SubAt(t, k).id, RootId(s)).1 == RootId(ReplaceAt(t, k, s))
  {
    var u, q, w := SubAt(t, k).id, ParentAt(t, k, p), RootId(s);
    ParentAtFacts(t, k, p);
    WiredBounds(ns0, t, p);
    WiredBounds(ns, s, x);
    var ns' := Transplanted(ns, root, u, w).0;
    if q == NIL {
      assert p == NIL && SubAt(t, k) == t;
      SubAtFacts(t, k);
      assert ReplaceAt(t, k, s) == s;
      WiredReparent(ns, ns', s, x, NIL);
    } else {
      SlotAt(ns0, t, k, p);
      assert q !in Ids(s);
      WiredReparent(ns, ns', s, x, q);
      assert ns[q] == ns0[q];
      ReplaceWired(ns0, ns', t, k, s, p);
    }
  }

  /**
   * The successor of a node `n` with a right subtree `r` is the leftmost
   * node of `r`: it has no left child, a search for its key in `r` reaches
   * it, and it hangs directly below `n` exactly when it is `r`'s top node.
   */
  lemma SuccessorFacts<V>(ns: seq<TreeNode<V>>, t: Tree<V>, k: int, n: int, r: Tree<V>)
    requires Linked(ns, t) && Ordered(t)
    requires SubAt(t, k).Branch? && n == SubAt(t, k).id && r == SubAt(t, k).right && r.Branch?
    ensures Wired(ns, r, n) && Ordered(r) && Distinct(r) && n !in Ids(r) && Ids(r) <= Ids(t)
    ensures 0 <= n < |ns| && ns[n].right == r.id && n in Ids(t)
    ensures ns[n].left == RootId(SubAt(t, k).left) && ns[n].parent == ParentAt(t, k, NIL)
    ensures ParentAt(t, k, NIL) == NIL || (0 <= ParentAt(t, k, NIL) < |ns| && ParentAt(t, k, NIL) !in Ids(SubAt(t, k)))
    ensures SubAt(t, k).left.Branch? ==> SubAt(t, k).left.id in Ids(t) - Ids(r)
    ensures MinNode(r).left == Leaf && SubAt(r, MinNode(r).key) == MinNode(r)
    ensures Wired(ns, MinNode(r), ParentAt(r, MinNode(r).key, n)) && Wired(ns, MinNode(r).right, MinNode(r).id)
    ensures 0 <= MinNode(r).id < |ns| && MinNode(r).id in Ids(r)
    ensures Ids(MinNode(r)) <= Ids(r) && Distinct(MinNode(r).right) && MinNode(r).id !in Ids(MinNode(r).right)
    ensures ns[MinNode(r).id] == TreeNode(MinNode(r).key, MinNode(r).value, NIL, RootId(MinNode(r).right), ParentAt(r, MinNode(r).key, n))
    ensures ParentAt(r, MinNode(r).key, n) == n ==> MinNode(r) == r
    ensures ParentAt(r, MinNode(r).key, n) != n ==> ParentAt(r, MinNode(r).key, n) in Ids(r) - Ids(MinNode(r)) && MinNode(r).key != r.key
  {
    var mt := MinNode(r);
    SubAtFacts(t, k);
    WiredSubAt(ns, t, k, NIL);
    MinNodeLeast(r);
    MinNodeFirst(r);
    WiredSubAt(ns, r, mt.key, n);
    ParentAtFacts(r, mt.key, n);
    SubAtFacts(r, mt.key);
    WiredBounds(ns, t, NIL);
    ParentAtFacts(t, k, NIL);
  }
  /**
   * Splicing the successor `m` out of the right subtree `r` of `n` when it is
   * not `r`'s top node (transplanting `m`'s right subtree into its place),
   * then hanging `r` below `m` on the right, lays out `r` without `m` below
   * `m`, and touches nothing outside `r`.
   */
  lemma DetachWired<V>(ns0: seq<TreeNode<V>>, ns1: seq<TreeNode<V>>, ns3: seq<TreeNode<V>>, t: Tree<V>, k: int, n: int, r: Tree<V>)
    requires Linked(ns0, t) && Ordered(t)
    requires SubAt(t, k).Branch? && n == SubAt(t, k).id && r == SubAt(t, k).right && r.Branch?
    requires ParentAt(r, MinNode(r).key, n) != n
    requires 0 <= MinNode(r).id < |ns0| && NIL <= ns0[MinNode(r).id].right < |ns0|
    requires 0 <= ns0[MinNode(r).id].parent < |ns0| && 0 <= n < |ns0| && 0 <= r.id < |ns0|
    requires ns1 == Transplanted(ns0, RootId(t), MinNode(r).id, ns0[MinNode(r).id].right).0
    requires |ns1| == |ns0|
    requires ns3 == ns1[MinNode(r).id := ns1[MinNode(r).id].(right := r.id)][r.id := ns1[r.id].(parent := MinNode(r).id)]
    ensures |ns3| == |ns0|
    ensures Wired(ns3, ReplaceAt(r, MinNode(r).key, MinNode(r).right), MinNode(r).id)
    ensures RootId(ReplaceAt(r, MinNode(r).key, MinNode(r).right)) == r.id
    ensures Agree(ns0, ns3, Ids(t) - Ids(r))
    ensures ns3[MinNode(r).id] == TreeNode(MinNode(r).key, MinNode(r).value, NIL, r.id, ns0[MinNode(r).id].parent)
  {
    var mt, m := MinNode(r), MinNode(r).id;
    var r1 := ReplaceAt(r, mt.key, mt.right);
    DetachSplice(ns0, ns1, t, k, n, r);
    var ns2 := ns1[m := ns1[m].(right := r.id)];
    WiredBounds(ns1, r1, n);
    assert Agree(ns1, ns2, Ids(r1));
    WiredFrame(ns1, ns2, r1, n);
    WiredReparent(ns2, ns3, r1, n, m);
    forall i | i in Ids(t) - Ids(r) ensures 0 <= i < |ns0| && 0 <= i < |ns3| && ns3[i] == ns0[i] {
      assert i != m && i != r.id;
      assert ns3[i] == ns1[i];
    }
  }

  /**
   * The first step of `DetachWired`: transplanting the successor's right
   * subtree into the successor's place lays out `r` without the successor
   * and keeps the successor's own slot and everything outside `r`.
   */
  lemma DetachSplice<V>(ns0: seq<TreeNode<V>>, ns1: seq<TreeNode<V>>, t: Tree<V>, k: int, n: int, r: Tree<V>)
    requires Linked(ns0, t) && Ordered(t)
    requires SubAt(t, k).Branch? && n == SubAt(t, k).id && r == SubAt(t, k).right && r.Branch?
    requires ParentAt(r, MinNode(r).key, n) != n
    requires 0 <= MinNode(r).id < |ns0| && NIL <= ns0[MinNode(r).id].right < |ns0|
    requires 0 <= ns0[MinNode(r).id].parent < |ns0| && 0 <= n < |ns0| && 0 <= r.id < |ns0|
    requires ns1 == Transplanted(ns0, RootId(t), MinNode(r).id, ns0[MinNode(r).id].right).0
    requires |ns1| == |ns0|
    ensures Wired(ns1, ReplaceAt(r, MinNode(r).key, MinNode(r).right), n)
    ensures Distinct(ReplaceAt(r, MinNode(r).key, MinNode(r).right))
    ensures MinNode(r).id !in Ids(ReplaceAt(r, MinNode(r).key, MinNode(r).right))
    ensures RootId(ReplaceAt(r, MinNode(r).key, MinNode(r).right)) == r.id
    ensures MinNode(r).id in Ids(r) && r.id in Ids(r) && MinNode(r).id != r.id
    ensures ns1[MinNode(r).id] == ns0[MinNode(r).id]
    ensures ns0[MinNode(r).id] == TreeNode(MinNode(r).key, MinNode(r).value, NIL, RootId(MinNode(r).right), ns0[MinNode(r).id].parent)
    ensures forall i | i in Ids(t) - Ids(r) :: 0 <= i < |ns0| && ns1[i] == ns0[i]
  {
    var mt, m := MinNode(r), MinNode(r).id;
    SuccessorFacts(ns0, t, k, n, r);
    WiredBounds(ns0, r, n);
    TransplantWired(ns0, ns0, RootId(t), r, mt.key, mt.right, n, m);
    TransplantedFrame(ns0, RootId(t), m, ns0[m].right);
    ReplaceAtIds(r, mt.key, mt.right);
    WiredBounds(ns0, mt.right, m);
    assert ns0[m].parent in Ids(r) && (ns0[m].right == NIL || ns0[m].right in Ids(r));
    assert ns1[m] == ns0[m];
    WiredBounds(ns0, t, NIL);
    forall i | i in Ids(t) - Ids(r) ensures 0 <= i < |ns0| && ns1[i] == ns0[i] {
      assert i != ns0[m].parent && i != ns0[m].right;
    }
  }

  /** The three link updates of the last steps of the two-children case, slot by slot. */
  lemma SucceedSteps<V>(ns3: seq<TreeNode<V>>, ns4: seq<TreeNode<V>>, ns6: seq<TreeNode<V>>, root: int, n: int, m: int, c: int)
    requires 0 <= n < |ns3| && 0 <= m < |ns3| && 0 <= c < |ns3| && m != c
    requires ns3[n].parent == NIL || (0 <= ns3[n].parent < |ns3| && ns3[n].parent != m && ns3[n].parent != c)
    requires ns4 == Transplanted(ns3, root, n, m).0 && |ns4| == |ns3|
    requires ns6 == ns4[m := ns4[m].(left := c)][c := ns4[c].(parent := m)]
    ensures |ns6| == |ns3|
    ensures forall i | 0 <= i < |ns3| && i != ns3[n].parent && i != m && i != c :: ns6[i] == ns3[i]
    ensures ns6[m] == ns3[m].(left := c, parent := ns3[n].parent)
    ensures ns6[c] == ns3[c].(parent := m)
    ensures ns3[n].parent != NIL ==>
      ns6[ns3[n].parent] == (if ns3[ns3[n].parent].left == n then ns3[ns3[n].parent].(left := m) else ns3[ns3[n].parent].(right := m))
    ensures Transplanted(ns3, root, n, m).1 == (if ns3[n].parent == NIL then m else root)
  {
  }

  /** Agreement composes and narrows. */
  lemma AgreeTrans<V>(ns0: seq<TreeNode<V>>, ns1: seq<TreeNode<V>>, ns2: seq<TreeNode<V>>, a: set<int>, b: set<int>, c: set<int>)
    requires Agree(ns0, ns1, a) && Agree(ns1, ns2, b) && c <= a && c <= b
    ensures Agree(ns0, ns2, c)
  {
  }

  /** The handle sets of the two-children case, as plain sets. */
  lemma SucceedSets(tt: set<int>, sub: set<int>, l: set<int>, r: set<int>, r1: set<int>, mt: set<int>, mr: set<int>, n: int, q: int, m: int, c: int)
    requires sub == l + {n} + r && sub <= tt && n !in l && n !in r && l !! r && NIL !in tt
    requires q != NIL ==> q in tt - sub
    requires c in l && m in mt && mt <= r && mr <= mt && m !in mr
    requires r1 == (r - mt) + mr
    ensures l - {c} <= tt - r && l - {c} <= tt - {q, m, c}
    ensures r1 <= tt - {q, m, c}
    ensures tt - sub - {q} <= tt - r && tt - sub - {q} <= tt - {q, m, c}
  {
  }

  /** What the two-children case needs to know about the handle sets of the tree. */
  lemma SucceedPrep<V>(ns0: seq<TreeNode<V>>, t: Tree<V>, k: int, l: Tree<V>, n: int, r: Tree<V>, mt: Tree<V>, q: int, r1: Tree<V>)
    requires Linked(ns0, t) && Ordered(t)
    requires SubAt(t, k).Branch? && SubAt(t, k) == Branch(l, n, SubAt(t, k).key, SubAt(t, k).value, r) && l.Branch? && r.Branch?
    requires mt == MinNode(r) && q == ParentAt(t, k, NIL) && r1 == ReplaceAt(r, mt.key, mt.right)
    ensures Ids(l) - {l.id} <= Ids(t) - Ids(r) && Ids(l) - {l.id} <= Ids(t) - {q, mt.id, l.id}
    ensures Ids(r1) <= Ids(t) - {q, mt.id, l.id}
    ensures Ids(t) - Ids(SubAt(t, k)) - {q} <= Ids(t) - Ids(r) && Ids(t) - Ids(SubAt(t, k)) - {q} <= Ids(t) - {q, mt.id, l.id}
    ensures Wired(ns0, l, n) && Distinct(l) && Distinct(r1) && l.id in Ids(t) - Ids(r)
  {
    var sub := SubAt(t, k);
    assert Ids(sub) == Ids(l) + {n} + Ids(r) && Ids(sub) <= Ids(t) && n !in Ids(l) && n !in Ids(r) && Ids(l) !! Ids(r)
        && NIL !in Ids(t) && (q != NIL ==> q in Ids(t) - Ids(sub)) && Wired(ns0, l, n) && Distinct(l) by {
      SubAtFacts(t, k);
      WiredSubAt(ns0, t, k, NIL);
      WiredBounds(ns0, t, NIL);
      ParentAtFacts(t, k, NIL);
    }
    assert mt.id in Ids(mt) && Ids(mt) <= Ids(r) && Ids(mt.right) <= Ids(mt) && mt.id !in Ids(mt.right)
        && Distinct(r1) && Ids(r1) == (Ids(r) - Ids(mt)) + Ids(mt.right) by {
      assert Ordered(r) && Distinct(r) by { SubAtFacts(t, k); }
      MinNodeLeast(r);
      SubAtFacts(r, mt.key);
      ReplaceAtIds(r, mt.key, mt.right);
    }
    SucceedSets(Ids(t), Ids(sub), Ids(l), Ids(r), Ids(r1), Ids(mt), Ids(mt.right), n, q, mt.id, l.id);
  }

  /** The arena after those steps lays out the successor with both of `n`'s subtrees below `n`'s parent. */
  lemma SucceedSubtree<V>(ns0: seq<TreeNode<V>>, ns3: seq<TreeNode<V>>, ns6: seq<TreeNode<V>>, t: Tree<V>, k: int,
                          l: Tree<V>, n: int, r: Tree<V>, mt: Tree<V>, q: int, r1: Tree<V>)
    requires Linked(ns0, t) && Ordered(t)
    requires SubAt(t, k).Branch? && SubAt(t, k) == Branch(l, n, SubAt(t, k).key, SubAt(t, k).value, r) && l.Branch? && r.Branch?
    requires mt == MinNode(r) && q == ParentAt(t, k, NIL) && r1 == ReplaceAt(r, mt.key, mt.right)
    requires Wired(ns3, r1, mt.id) && Agree(ns0, ns3, Ids(t) - Ids(r))
    requires Agree(ns3, ns6, Ids(t) - {q, mt.id, l.id})
    requires 0 <= mt.id < |ns6| && ns6[mt.id] == TreeNode(mt.key, mt.value, l.id, RootId(r1), q)
    requires 0 <= l.id < |ns6| && 0 <= l.id < |ns3| && ns6[l.id] == ns3[l.id].(parent := mt.id)
    ensures Wired(ns6, Branch(l, mt.id, mt.key, mt.value, r1), q)
    ensures Agree(ns0, ns6, Ids(t) - Ids(SubAt(t, k)) - {q})
  {
    var m, sub := mt.id, SubAt(t, k);
    SucceedPrep(ns0, t, k, l, n, r, mt, q, r1);
    assert Wired(ns6, l, m) by {
      assert ns3[l.id] == ns0[l.id];
      AgreeTrans(ns0, ns3, ns6, Ids(t) - Ids(r), Ids(t) - {q, m, l.id}, Ids(l) - {l.id});
      WiredReparent(ns0, ns6, l, n, m);
    }
    assert Wired(ns6, r1, m) by {
      AgreeTrans(ns3, ns3, ns6, Ids(r1), Ids(t) - {q, m, l.id}, Ids(r1));
      WiredFrame(ns3, ns6, r1, m);
    }
    AgreeTrans(ns0, ns3, ns6, Ids(t) - Ids(r), Ids(t) - {q, m, l.id}, Ids(t) - Ids(sub) - {q});
  }

  /**
   * The rest of the two-children case: with the right subtree of `n`,
   * without the successor `m`, laid out below `m`, transplanting `m` into
   * `n`'s place and hanging `n`'s left subtree below `m` lays out the tree
   * with `n` deleted.
   */
  lemma SucceedWired<V>(ns0: seq<TreeNode<V>>, ns3: seq<TreeNode<V>>, ns4: seq<TreeNode<V>>, ns6: seq<TreeNode<V>>,
                        root: int, t: Tree<V>, k: int, n: int, m: int, r1: Tree<V>)
    requires Linked(ns0, t) && Ordered(t)
    requires SubAt(t, k).Branch? && n == SubAt(t, k).id && SubAt(t, k).left.Branch? && SubAt(t, k).right.Branch?
    requires m == MinNode(SubAt(t, k).right).id
    requires r1 == ReplaceAt(SubAt(t, k).right, MinNode(SubAt(t, k).right).key, MinNode(SubAt(t, k).right).right)
    requires Wired(ns3, r1, m) && Agree(ns0, ns3, Ids(t) - Ids(SubAt(t, k).right)) && |ns3| == |ns0|
    requires 0 <= m < |ns3| && ns3[m] == TreeNode(MinNode(SubAt(t, k).right).key, MinNode(SubAt(t, k).right).value, NIL, RootId(r1), ns3[m].parent)
    requires 0 <= n < |ns3| && (ns3[n].parent == NIL || 0 <= ns3[n].parent < |ns3|)
    requires ns4 == Transplanted(ns3, RootId(t), n, m).0 && |ns4| == |ns3|
    requires 0 <= SubAt(t, k).left.id < |ns4|
    requires ns6 == ns4[m := ns4[m].(left := SubAt(t, k).left.id)][SubAt(t, k).left.id := ns4[SubAt(t, k).left.id].(parent := m)]
    ensures Wired(ns6, Deleted(t, k), NIL)
    ensures Transplanted(ns3, RootId(t), n, m).1 == RootId(Deleted(t, k))
  {
    var sub := SubAt(t, k);
    var l, r, q := sub.left, sub.right, ParentAt(t, k, NIL);
    var mt := MinNode(r);
    var s := Branch(l, m, mt.key, mt.value, r1);
    SuccessorFacts(ns0, t, k, n, r);
    WiredBounds(ns0, t, NIL);
    SubAtFacts(t, k);
    WiredSubAt(ns0, t, k, NIL);
    ParentAtFacts(t, k, NIL);
    ReplaceAtIds(r, mt.key, mt.right);
    assert ns0[n].parent == q && ns0[n].left == l.id && ns3[n] == ns0[n];
    assert q != NIL ==> q !in Ids(r) && ns3[q] == ns0[q];
    SucceedSteps(ns3, ns4, ns6, RootId(t), n, m, l.id);
    assert Agree(ns3, ns6, Ids(t) - {q, m, l.id});
    assert ns3[l.id] == ns0[l.id];
    SucceedSubtree(ns0, ns3, ns6, t, k, l, n, r, mt, q, r1);
    if q != NIL {
      SlotAt(ns0, t, k, NIL);
    } else {
      assert sub == t && ReplaceAt(t, k, s) == s;
    }
    ReplaceWired(ns0, ns6, t, k, s, NIL);
    assert RemoveRoot(sub) == s;
  }
  /**
   * The one-child cases of deletion: when the node a search for `k` reaches
   * lacks a left child (`noLeft`) or a right child, transplanting its other
   * child into its place lays out the tree with that node deleted.
   */
  lemma OneChildWired<V>(ns: seq<TreeNode<V>>, t: Tree<V>, k: int, noLeft: bool)
    requires Linked(ns, t) && Ordered(t) && SubAt(t, k).Branch? && 0 <= SubAt(t, k).id < |ns|
    requires if noLeft then ns[SubAt(t, k).id].left == NIL else ns[SubAt(t, k).id].right == NIL
    ensures var u := SubAt(t, k).id;
      && NIL <= (if noLeft then ns[u].right else ns[u].left) < |ns|
      && (ns[u].parent == NIL || 0 <= ns[u].parent < |ns|)
    ensures var u := SubAt(t, k).id; var w := if noLeft then ns[u].right else ns[u].left;
      && Wired(Transplanted(ns, RootId(t), u, w).0, Deleted(t, k), NIL)
      && Transplanted(ns, RootId(t), u, w).1 == RootId(Deleted(t, k))
  {
    var sub := SubAt(t, k);
    var s := if noLeft then sub.right else sub.left;
    WiredBounds(ns, t, NIL);
    SubAtFacts(t, k);
    WiredSubAt(ns, t, k, NIL);
    ParentAtFacts(t, k, NIL);
    WiredBounds(ns, sub, ParentAt(t, k, NIL));
    assert RemoveRoot(sub) == s;
    TransplantWired(ns, ns, RootId(t), t, k, s, NIL, sub.id);
  }
}
