/**
 * `transplant` as the tree map's source writes it. It decides the root
 * case by testing whether the removed node has a right child, instead of
 * whether it has a parent. It also copies the removed node's right link
 * into the incoming node, where the parent link was meant. The model's
 * `TreeMaps.TreeMap.Transplant` is the standard procedure.
 */
module TreeFindings {
  import opened BinaryTree
  import opened TreeArena

  /**
   * The source's transplant of `w` for `u`, on the arena. When
   * `u` has a right child, the source reads `u`'s parent without a null
   * check, which the requires clause excludes.
   */
  function TransplantedAsWritten<V>(ns: seq<TreeNode<V>>, root: int, u: int, w: int): (r: (seq<TreeNode<V>>, int))
    requires 0 <= u < |ns| && NIL <= w < |ns|
    requires ns[u].right == NIL || 0 <= ns[u].parent < |ns|
    ensures |r.0| == |ns|
    ensures r.1 == (if ns[u].right == NIL then w else root)
    ensures forall j | 0 <= j < |ns| && j != w && (ns[u].right == NIL || j != ns[u].parent) :: r.0[j] == ns[j]
    ensures ns[u].right != NIL && ns[u].parent != w ==>
      r.0[ns[u].parent] == (if ns[ns[u].parent].left == u then ns[ns[u].parent].(left := w) else ns[ns[u].parent].(right := w))
    ensures w != NIL ==> r.0[w].right == ns[u].right && r.0[w].parent == ns[w].parent
  {
    var p := ns[u].parent;
    var ns1 :=
      if ns[u].right == NIL then ns
      else if ns[p].left == u then ns[p := ns[p].(left := w)]
      else ns[p := ns[p].(right := w)];
    var ns2 := if w == NIL then ns1 else ns1[w := ns1[w].(right := ns[u].right)];
    (ns2, if ns[u].right == NIL then w else root)
  }

  /**
   * For every node `u` with a parent but no right child, the source's
   * transplant makes `w` the root, where the standard transplant keeps the
   * root and relinks the parent. And `w`'s parent link is never updated,
   * where the standard transplant gives it `u`'s parent.
   */
  lemma TransplantAsWrittenDiffers<V>(ns: seq<TreeNode<V>>, root: int, u: int, w: int)
    requires 0 <= u < |ns| && NIL <= w < |ns| && 0 <= ns[u].parent < |ns|
    ensures ns[u].right == NIL ==> TransplantedAsWritten(ns, root, u, w).1 == w && Transplanted(ns, root, u, w).1 == root
    ensures w != NIL ==>
      TransplantedAsWritten(ns, root, u, w).0[w].parent == ns[w].parent && Transplanted(ns, root, u, w).0[w].parent == ns[u].parent
  {
  }

  /** The tree 2 with left child 1, as `insert(2)` then `insert(1)` lay it out. */
  function TwoOne(): seq<TreeNode<int>> {
    [TreeNode(2, 20, 1, NIL, NIL), TreeNode(1, 10, NIL, NIL, 0)]
  }

  /**
   * Removing the leaf 1 calls `transplant(1, nullptr)`. As written, that
   * empties the whole tree, since the leaf has no right child. The standard
   * transplant only clears the root's left link.
   */
  lemma RemoveLeafLosesTree()
    ensures TransplantedAsWritten(TwoOne(), 0, 1, NIL).1 == NIL
    ensures Transplanted(TwoOne(), 0, 1, NIL) == ([TreeNode(2, 20, NIL, NIL, NIL), TreeNode(1, 10, NIL, NIL, 0)], 0)
  {
    var ns := TwoOne();
    assert ns[1].parent == 0 && ns[0].left == 1;
    assert ns[0 := ns[0].(left := NIL)] == [TreeNode(2, 20, NIL, NIL, NIL), TreeNode(1, 10, NIL, NIL, 0)];
  }

  /**
   * Removing the root 2, which has only the left child 1, calls
   * `transplant(0, 1)`. As written, the new root 1 keeps its parent link to
   * the deleted node. The standard transplant clears it.
   */
  lemma RemoveRootKeepsParent()
    ensures TransplantedAsWritten(TwoOne(), 0, 0, 1) == (TwoOne(), 1)
    ensures TransplantedAsWritten(TwoOne(), 0, 0, 1).0[1].parent == 0
    ensures Transplanted(TwoOne(), 0, 0, 1) == ([TreeNode(2, 20, 1, NIL, NIL), TreeNode(1, 10, NIL, NIL, NIL)], 1)
  {
    var ns := TwoOne();
    assert ns[0].right == NIL && ns[0].parent == NIL;
    assert ns[1 := ns[1].(right := NIL)] == ns;
    assert ns[1 := ns[1].(parent := NIL)] == [TreeNode(2, 20, 1, NIL, NIL), TreeNode(1, 10, NIL, NIL, NIL)];
  }
}
