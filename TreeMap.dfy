/**
 * TreeMap: an unbalanced binary search tree whose nodes carry parent links.
 *
 * The nodes live in the arena `nodes`; `root` is the handle of the root
 * (`NIL` for `nullptr`) and `nodeCounter` the number of nodes. The
 * ghost field `tree` is the tree those links describe, and `Valid()` is the
 * representation invariant:
 *   - the arena links describe `tree` exactly, with every parent link the
 *     inverse of a child link and the root the only node without a parent;
 *   - the keys are in binary-search-tree order;
 *   - `root` is the handle of `tree`'s root and `nodeCounter` its size.
 * An iterator of the source is modelled by the handle of the node it points
 * to, `NIL` being `end()`. The default `mapped_type()` that `operator[]`
 * stores for a missing key is the constructor parameter `blank`.
 */
module TreeMaps {
  import opened PairMaps
  import opened BinaryTree
  import opened TreeArena
  import opened Results

  class TreeMap<V(==)> {
    var nodes: seq<TreeNode<V>>
    var root: int
    var nodeCounter: nat
    ghost var tree: Tree<V>
    const blank: V

    ghost predicate Valid()
      reads this
    {
      && Linked(nodes, tree)
      && Ordered(tree)
      && root == RootId(tree)
      && nodeCounter == Size(tree)
    }

    /** The key/value association the map stores. */
    ghost function Contents(): map<int, V>
      reads this
    {
      Map(tree)
    }

    /** The nodes in iteration (in-order) order. */
    ghost function Order(): seq<Item<V>>
      reads this
    {
      Items(tree)
    }

    /** A new, empty map. */
    constructor (blank: V)
      ensures Valid() && Contents() == map[] && root == NIL && nodeCounter == 0
      ensures this.blank == blank
    {
      nodes := [];
      root := NIL;
      nodeCounter := 0;
      tree := Leaf;
      this.blank := blank;
    }

    /** `findNode`: the node holding `k`, or NIL. */
    method FindNode(k: int) returns (n: int)
      requires Valid()
      ensures n == RootId(SubAt(tree, k))
      ensures n == NIL <==> k !in Contents()
      ensures n != NIL ==> 0 <= n < |nodes| && n in Ids(tree) && nodes[n].key == k && nodes[n].value == Contents()[k]
    {
      n := root;
      ghost var sub, par := tree, NIL;
      while n != NIL && nodes[n].key != k
        invariant Wired(nodes, sub, par) && n == RootId(sub)
        invariant SubAt(sub, k) == SubAt(tree, k)
        decreases sub
      {
        if k > nodes[n].key {
          sub, par := sub.right, n;
          n := nodes[n].right;
        } else {
          sub, par := sub.left, n;
          n := nodes[n].left;
        }
      }
      SearchCorrect(tree, k);
      SubAtFacts(tree, k);
      MapKeys(tree);
    }

    /** Follows left links from the top of `s` to the node without a left child. */
    method Leftmost(h: int, ghost s: Tree<V>, ghost p: int) returns (m: int)
      requires Wired(nodes, s, p) && s.Branch? && h == s.id
      ensures m == MinNode(s).id
    {
      m := h;
      ghost var c, cp := s, p;
      while nodes[m].left != NIL
        invariant Wired(nodes, c, cp) && c.Branch? && m == c.id && MinNode(c) == MinNode(s)
        decreases c
      {
        c, cp := c.left, c.id;
        m := nodes[m].left;
      }
    }

    /** Follows right links from the top of `s` to the node without a right child. */
    method Rightmost(h: int, ghost s: Tree<V>, ghost p: int) returns (m: int)
      requires Wired(nodes, s, p) && s.Branch? && h == s.id
      ensures m == MaxNode(s).id
    {
      m := h;
      ghost var c, cp := s, p;
      while nodes[m].right != NIL
        invariant Wired(nodes, c, cp) && c.Branch? && m == c.id && MaxNode(c) == MaxNode(s)
        decreases c
      {
        c, cp := c.right, c.id;
        m := nodes[m].right;
      }
    }

    /**
     * `findMin(h)` for the subtree `s` at `h`: NIL when the map is empty,
     * otherwise the first node of `s` in iteration order.
     */
    method FindMin(h: int, ghost s: Tree<V>, ghost p: int) returns (m: int)
      requires Valid() && Wired(nodes, s, p) && h == RootId(s)
      requires nodeCounter != 0 ==> s.Branch?
      ensures nodeCounter == 0 ==> m == NIL
      ensures nodeCounter != 0 ==> m == MinNode(s).id && m == Items(s)[0].id
    {
      if nodeCounter == 0 {
        return NIL;
      }
      m := Leftmost(h, s, p);
      MinNodeFirst(s);
    }

    /**
     * `insert`: hangs a new node holding (k, v) as a leaf where a search for
     * `k` ends, right of its parent when the parent's key is smaller, and
     * counts it. `insert` itself does not look for `k`; its callers that are
     * modelled here (`operator[]` and the copy loop) call it only for absent
     * keys.
     */
    method Insert(k: int, v: V) returns (n: int)
      requires Valid() && k !in Contents()
      modifies this
      ensures Valid()
      ensures n == |old(nodes)| && tree == Inserted(old(tree), k, v, n)
      ensures Contents() == old(Contents())[k := v]
      ensures nodeCounter == old(nodeCounter) + 1
      ensures 0 <= n < |nodes| && n in Ids(tree) && nodes[n].key == k && nodes[n].value == v
      ensures nodes[n].left == NIL && nodes[n].right == NIL
    {
      ghost var t0 := tree;
      WiredBounds(nodes, t0, NIL);
      n := |nodes|;
      ghost var ns0 := nodes;
      nodes := nodes + [TreeNode(k, v, NIL, NIL, NIL)];
      WiredFrame(ns0, nodes, t0, NIL);
      nodeCounter := nodeCounter + 1;
      MapKeys(t0);
      SearchCorrect(t0, k);
      InsertSpec(t0, k, v, n);
      InsertIds(t0, k, v, n);
      if root == NIL {
        assert t0 == Leaf;
        root := n;
        tree := Inserted(t0, k, v, n);
        assert tree == Branch(Leaf, n, k, v, Leaf) && nodes[n] == TreeNode(k, v, NIL, NIL, NIL);
        assert Wired(nodes, tree, NIL);
        return;
      }
      var par := SearchParent(k, t0);
      ghost var ns1 := nodes;
      ParentAtFacts(t0, k, NIL);
      WiredBounds(ns1, t0, NIL);
      if nodes[par].key < k {
        nodes := nodes[par := nodes[par].(right := n)];
      } else {
        nodes := nodes[par := nodes[par].(left := n)];
      }
      nodes := nodes[n := nodes[n].(parent := par)];
      HangWired(ns1, nodes, t0, k, v, n);
      tree := Inserted(t0, k, v, n);
    }

    /**
     * The descent of `insert`: from the root, right past smaller keys and left
     * otherwise, down to an empty link. The last node passed is the parent
     * the new node hangs from.
     */
    method SearchParent(k: int, ghost t: Tree<V>) returns (par: int)
      requires Wired(nodes, t, NIL) && root == RootId(t) && k !in Keys(t)
      ensures par == ParentAt(t, k, NIL)
    {
      var cur := root;
      par := NIL;
      ghost var sub := t;
      while cur != NIL
        invariant Wired(nodes, sub, par) && cur == RootId(sub)
        invariant k !in Keys(sub) && ParentAt(sub, k, par) == ParentAt(t, k, NIL)
        decreases sub
      {
        par := cur;
        if nodes[cur].key < k {
          cur := nodes[cur].right;
          sub := sub.right;
        } else {
          cur := nodes[cur].left;
          sub := sub.left;
        }
      }
    }

    /**
     * `operator[]`: the node holding `k`, inserting (k, blank) first when `k`
     * is absent. The returned handle is the slot the reference refers to.
     */
    method Index(k: int) returns (n: int)
      requires Valid()
      modifies this
      ensures Valid()
      ensures k in old(Contents()) ==> nodes == old(nodes) && tree == old(tree) && root == old(root) && nodeCounter == old(nodeCounter)
      ensures k !in old(Contents()) ==> Contents() == old(Contents())[k := blank] && nodeCounter == old(nodeCounter) + 1
      ensures k !in old(Contents()) ==> n == |old(nodes)| && tree == Inserted(old(tree), k, blank, n)
      ensures 0 <= n < |nodes| && n in Ids(tree) && nodes[n].key == k && k in Contents() && nodes[n].value == Contents()[k]
    {
      n := FindNode(k);
      if n == NIL {
        n := Insert(k, blank);
      }
    }

    /** Assignment through the reference to the value of the node `n`. */
    method SetValue(n: int, v: V)
      requires Valid() && n in Ids(tree)
      modifies this
      ensures Valid()
      ensures 0 <= n < |nodes| && |nodes| == |old(nodes)| && old(nodes)[n].key == nodes[n].key
      ensures tree == Updated(old(tree), nodes[n].key, v)
      ensures Contents() == old(Contents())[nodes[n].key := v]
      ensures root == old(root) && nodeCounter == old(nodeCounter)
    {
      ghost var t0, ns0 := tree, nodes;
      WiredBounds(nodes, t0, NIL);
      HandleAt(nodes, tree, NIL, n);
      ghost var k := nodes[n].key;
      ghost var u := SubAt(t0, k);
      WiredSubAt(nodes, t0, k, NIL);
      ParentAtFacts(t0, k, NIL);
      SubAtFacts(t0, k);
      if ParentAt(t0, k, NIL) != NIL {
        SlotAt(ns0, t0, k, NIL);
      }
      nodes := nodes[n := nodes[n].(value := v)];
      assert Wired(nodes, u.left, n) by { WiredFrame(ns0, nodes, u.left, n); }
      assert Wired(nodes, u.right, n) by { WiredFrame(ns0, nodes, u.right, n); }
      ReplaceWired(ns0, nodes, t0, k, u.(value := v), NIL);
      tree := Updated(t0, k, v);
      SearchCorrect(t0, k);
      UpdateSpec(t0, k, v);
    }

    /** `find`: the iterator at the node holding `k`, or `end()`. */
    method Find(k: int) returns (n: int)
      requires Valid()
      ensures k in Contents() <==> n != NIL
      ensures n != NIL ==> n in Ids(tree) && 0 <= n < |nodes| && nodes[n].key == k
      ensures forall j | 0 <= j < |Order()| :: Order()[j].id == n <==> Order()[j].key == k
    {
      n := FindNode(k);
      ItemsMembers(tree);
      WiredItems(nodes, tree, NIL);
      forall j | 0 <= j < |Order()| ensures Order()[j].id == n <==> Order()[j].key == k {
        HandleAt(nodes, tree, NIL, Order()[j].id);
      }
    }

    /**
     * `transplant(u, w)`: the subtree at `w` takes the place of the node `u`
     * below `u`'s parent, or becomes the root when `u` has none, and `w`'s
     * parent link follows. This is the standard procedure; the source's own
     * version differs from it (see the TreeFindings module).
     */
    method Transplant(u: int, w: int)
      requires 0 <= u < |nodes| && NIL <= w < |nodes|
      requires nodes[u].parent == NIL || 0 <= nodes[u].parent < |nodes|
      modifies this
      ensures (nodes, root) == Transplanted(old(nodes), old(root), u, w)
      ensures tree == old(tree) && nodeCounter == old(nodeCounter)
    {
      var p := nodes[u].parent;
      if p == NIL {
        root := w;
      } else if nodes[p].left == u {
        nodes := nodes[p := nodes[p].(left := w)];
      } else {
        nodes := nodes[p := nodes[p].(right := w)];
      }
      if w != NIL {
        nodes := nodes[w := nodes[w].(parent := p)];
      }
    }

    /**
     * First half of the two-children case of `remove` when the successor `m`
     * of `n` is not `n`'s right child: `m` is spliced out of the right
     * subtree `r` by its own right child, and then adopts `r` as its right
     * subtree. Afterwards the arena lays out `r` without `m` below `m`.
     */
    method DetachSuccessor(n: int, m: int, ghost k: int, ghost r: Tree<V>)
      requires Valid() && SubAt(tree, k).Branch? && SubAt(tree, k).id == n
      requires r == SubAt(tree, k).right && r.Branch? && m == MinNode(r).id
      requires 0 <= m < |nodes| && nodes[m].parent != n
      modifies this
      ensures |nodes| == |old(nodes)| && root == old(root) && tree == old(tree) && nodeCounter == old(nodeCounter)
      ensures Wired(nodes, ReplaceAt(r, MinNode(r).key, MinNode(r).right), m)
      ensures RootId(ReplaceAt(r, MinNode(r).key, MinNode(r).right)) == r.id
      ensures Agree(old(nodes), nodes, Ids(tree) - Ids(r))
      ensures nodes[m] == TreeNode(MinNode(r).key, MinNode(r).value, NIL, r.id, old(nodes)[m].parent)
    {
      ghost var t0, ns0 := tree, nodes;
      SuccessorFacts(ns0, t0, k, n, r);
      WiredBounds(ns0, r, n);
      Transplant(m, nodes[m].right);
      ghost var ns1 := nodes;
      TransplantedFrame(ns0, old(root), m, ns0[m].right);
      assert nodes[n] == ns0[n];
      nodes := nodes[m := nodes[m].(right := nodes[n].right)];
      nodes := nodes[nodes[m].right := nodes[nodes[m].right].(parent := m)];
      DetachWired(ns0, ns1, nodes, t0, k, n, r);
    }

    /**
     * The two-children case of `remove`: the node `n` holding `k` is replaced
     * by its successor, the minimum `m` of its right subtree, which takes
     * over both of `n`'s subtrees (the right one without `m`).
     */
    method ReplaceBySuccessor(n: int, ghost k: int)
      requires Valid() && SubAt(tree, k).Branch? && SubAt(tree, k).id == n
      requires SubAt(tree, k).left.Branch? && SubAt(tree, k).right.Branch?
      modifies this
      ensures Wired(nodes, Deleted(tree, k), NIL) && root == RootId(Deleted(tree, k))
      ensures tree == old(tree) && nodeCounter == old(nodeCounter)
    {
      ghost var t0, ns0 := tree, nodes;
      ghost var sub := SubAt(t0, k);
      ghost var l, r := sub.left, sub.right;
      SuccessorFacts(ns0, t0, k, n, r);
      WiredBounds(ns0, t0, NIL);
      var m := FindMin(nodes[n].right, r, n);
      ghost var mt := MinNode(r);
      ghost var r1 := ReplaceAt(r, mt.key, mt.right);
      if nodes[m].parent != n {
        DetachSuccessor(n, m, k, r);
      } else {
        assert mt == r && r1 == r.right;
      }
      ghost var ns3 := nodes;
      assert m in Ids(r) && m != l.id && ns3[n] == ns0[n];
      Transplant(n, m);
      ghost var ns4 := nodes;
      TransplantedFrame(ns3, old(root), n, m);
      assert nodes[n] == ns0[n];
      nodes := nodes[m := nodes[m].(left := nodes[n].left)];
      nodes := nodes[nodes[m].left := nodes[nodes[m].left].(parent := m)];
      SucceedWired(ns0, ns3, ns4, nodes, old(root), t0, k, n, m, r1);
    }

    /**
     * `remove(it)`: `end()` (NIL) raises out_of_range and changes nothing;
     * otherwise the node is deleted by the three textbook cases (no left
     * child, no right child, both) and the count drops by one.
     */
    method Remove(n: int) returns (r: Result<()>)
      requires Valid() && (n == NIL || n in Ids(tree))
      modifies this
      ensures Valid()
      ensures n == NIL ==> r == OutOfRange && nodes == old(nodes) && root == old(root) && tree == old(tree) && nodeCounter == old(nodeCounter)
      ensures n != NIL ==> r == Ok(()) && 0 <= n < |old(nodes)| && tree == Deleted(old(tree), old(nodes)[n].key)
      ensures n != NIL ==> Contents() == old(Contents()) - {old(nodes)[n].key} && nodeCounter == old(nodeCounter) - 1
      ensures n != NIL ==> Ids(tree) == old(Ids(tree)) - {n}
    {
      if n == NIL {
        return OutOfRange;
      }
      ghost var t0 := tree;
      assert 0 <= n < |nodes| && SubAt(t0, nodes[n].key).Branch? && SubAt(t0, nodes[n].key).id == n by {
        HandleAt(nodes, t0, NIL, n);
      }
      ghost var k := nodes[n].key;
      assert k in Keys(t0) by {
        SearchCorrect(t0, k);
      }
      DeleteSpec(t0, k);
      DeleteIds(t0, k);
      if nodes[n].left == NIL {
        OneChildWired(nodes, t0, k, true);
        Transplant(n, nodes[n].right);
      } else if nodes[n].right == NIL {
        OneChildWired(nodes, t0, k, false);
        Transplant(n, nodes[n].left);
      } else {
        assert SubAt(t0, k).left.Branch? && SubAt(t0, k).right.Branch? by {
          WiredSubAt(nodes, t0, k, NIL);
        }
        ReplaceBySuccessor(n, k);
      }
      tree := Deleted(t0, k);
      nodeCounter := nodeCounter - 1;
      r := Ok(());
    }

    /** `remove(key)`: `remove(find(key))`. */
    method RemoveKey(k: int) returns (r: Result<()>)
      requires Valid()
      modifies this
      ensures Valid()
      ensures k !in old(Contents()) ==> r == OutOfRange && nodes == old(nodes) && root == old(root) && tree == old(tree) && nodeCounter == old(nodeCounter)
      ensures k in old(Contents()) ==> r == Ok(()) && Contents() == old(Contents()) - {k} && nodeCounter == old(nodeCounter) - 1
    {
      var n := FindNode(k);
      r := Remove(n);
    }

    /** `begin()`: the first node in iteration order, or `end()` (NIL) for an empty map. */
    method Begin() returns (n: int)
      requires Valid()
      ensures n == NIL <==> Order() == []
      ensures Order() != [] ==> n == Order()[0].id
    {
      ItemsMembers(tree);
      n := FindMin(root, tree, NIL);
      assert Order() != [] ==> n != NIL by { WiredItems(nodes, tree, NIL); }
    }

    /**
     * `operator*`: the (key, value) pair at the iterator; `end()` raises
     * out_of_range.
     */
    method Deref(n: int) returns (r: Result<(int, V)>)
      requires Valid() && (n == NIL || n in Ids(tree))
      ensures n == NIL <==> r == OutOfRange
      ensures r.Ok? ==> 0 <= n < |nodes| && r.value == (nodes[n].key, nodes[n].value)
      ensures r.Ok? ==> r.value.0 in Contents() && Contents()[r.value.0] == r.value.1
      ensures forall j | 0 <= j < |Order()| && Order()[j].id == n :: r == Ok((Order()[j].key, Order()[j].value))
    {
      WiredItems(nodes, tree, NIL);
      if n == NIL {
        return OutOfRange;
      }
      HandleAt(nodes, tree, NIL, n);
      SearchCorrect(tree, nodes[n].key);
      WiredSubAt(nodes, tree, nodes[n].key, NIL);
      r := Ok((nodes[n].key, nodes[n].value));
    }

    /**
     * `operator++`: the in-order successor: the leftmost node of the right
     * subtree when there is one, otherwise the first ancestor reached from a
     * left child, which is `end()` (NIL) from the maximum. `end()` itself
     * raises out_of_range.
     */
    method Next(n: int) returns (r: Result<int>)
      requires Valid() && (n == NIL || n in Ids(tree))
      ensures n == NIL <==> r == OutOfRange
      ensures n != NIL ==> exists j :: 0 <= j < |Order()| && Order()[j].id == n
      ensures forall j: nat | j < |Order()| && Order()[j].id == n :: r == Ok(NextId(Order(), j))
    {
      if n == NIL {
        assert forall j | 0 <= j < |Order()| :: Order()[j].id != NIL by { WiredItems(nodes, tree, NIL); }
        return OutOfRange;
      }
      HandleAt(nodes, tree, NIL, n);
      ghost var k := nodes[n].key;
      ghost var s := SubAt(tree, k);
      ghost var path := PathTo(tree, k);
      PlugPathTo(tree, k);
      PlugWired(nodes, path, s, NIL);
      if nodes[n].right != NIL {
        var m := Leftmost(nodes[n].right, s.right, n);
        NextBelow(path, s);
        r := Ok(m);
      } else {
        var q := ClimbFromRight(n, path, s);
        r := Ok(q);
      }
      assert exists j :: 0 <= j < |Order()| && Order()[j].id == n by {
        ItemsCover(tree);
        assert Order() == Items(tree);
      }
    }

    /**
     * The climb of `operator++` from the node `n` without a right subtree:
     * up while the node is its parent's right child, then one step more.
     */
    method ClimbFromRight(n: int, ghost path: seq<Frame<V>>, ghost s: Tree<V>) returns (q: int)
      requires Valid() && Plug(path, s) == tree && s.Branch? && s.id == n && s.right == Leaf
      ensures forall j: nat | j < |Order()| && Order()[j].id == n :: q == NextId(Order(), j)
    {
      assert Items(s) == Items(s.left) + [Item(n, s.key, s.value)];
      var cur := n;
      ghost var up, c := path, s;
      ClimbFacts(nodes, up, c);
      while nodes[cur].parent != NIL && nodes[nodes[cur].parent].right == cur
        invariant Plug(up, c) == tree && c.Branch? && cur == c.id
        invariant Items(c)[|Items(c)| - 1].id == n
        invariant 0 <= cur < |nodes| && nodes[cur].parent == ParentId(up) && (up == [] <==> ParentId(up) == NIL)
        invariant up != [] ==> 0 <= up[0].id < |nodes| && (nodes[up[0].id].right == cur <==> up[0].RightOf?)
        decreases |up|
      {
        var f := up[0];
        assert Items(Fill(f, c)) == Items(f.left) + [Item(f.id, f.key, f.value)] + Items(c);
        cur := nodes[cur].parent;
        up, c := up[1..], Fill(f, c);
        ClimbFacts(nodes, up, c);
      }
      NextAbove(up, c, n);
      q := nodes[cur].parent;
    }

    /**
     * `operator--`: from `end()` (NIL) the node with the largest key;
     * otherwise the in-order predecessor: the rightmost node of the left
     * subtree when there is one, otherwise the first ancestor reached from a
     * right child, which is `end()` from the minimum. An empty map raises
     * out_of_range.
     */
    method Prev(n: int) returns (r: Result<int>)
      requires Valid() && (n == NIL || n in Ids(tree))
      ensures Order() == [] <==> r == OutOfRange
      ensures n == NIL && Order() != [] ==> r == Ok(Order()[|Order()| - 1].id)
      ensures n != NIL ==> exists j :: 0 <= j < |Order()| && Order()[j].id == n
      ensures forall j: nat | j < |Order()| && Order()[j].id == n :: r == Ok(PrevId(Order(), j))
    {
      assert forall j | 0 <= j < |Order()| :: Order()[j].id != NIL by { WiredItems(nodes, tree, NIL); }
      if root == NIL {
        return OutOfRange;
      }
      if n == NIL {
        var m := Rightmost(root, tree, NIL);
        MaxNodeLast(tree);
        return Ok(m);
      }
      HandleAt(nodes, tree, NIL, n);
      ghost var k := nodes[n].key;
      ghost var s := SubAt(tree, k);
      ghost var path := PathTo(tree, k);
      PlugPathTo(tree, k);
      PlugWired(nodes, path, s, NIL);
      if nodes[n].left != NIL {
        var m := Rightmost(nodes[n].left, s.left, n);
        PrevBelow(path, s);
        r := Ok(m);
      } else {
        var q := ClimbFromLeft(n, path, s);
        r := Ok(q);
      }
      assert exists j :: 0 <= j < |Order()| && Order()[j].id == n by {
        ItemsCover(tree);
        assert Order() == Items(tree);
      }
    }

    /**
     * The climb of `operator--` from the node `n` without a left subtree:
     * up while the node is its parent's left child, then one step more.
     */
    method ClimbFromLeft(n: int, ghost path: seq<Frame<V>>, ghost s: Tree<V>) returns (q: int)
      requires Valid() && Plug(path, s) == tree && s.Branch? && s.id == n && s.left == Leaf
      ensures forall j: nat | j < |Order()| && Order()[j].id == n :: q == PrevId(Order(), j)
    {
      assert Items(s) == [Item(n, s.key, s.value)] + Items(s.right);
      var cur := n;
      ghost var up, c := path, s;
      ClimbFacts(nodes, up, c);
      while nodes[cur].parent != NIL && nodes[nodes[cur].parent].left == cur
        invariant Plug(up, c) == tree && c.Branch? && cur == c.id
        invariant Items(c)[0].id == n
        invariant 0 <= cur < |nodes| && nodes[cur].parent == ParentId(up) && (up == [] <==> ParentId(up) == NIL)
        invariant up != [] ==> 0 <= up[0].id < |nodes| && (nodes[up[0].id].left == cur <==> up[0].LeftOf?)
        decreases |up|
      {
        var f := up[0];
        assert Items(Fill(f, c)) == Items(c) + [Item(f.id, f.key, f.value)] + Items(f.right);
        cur := nodes[cur].parent;
        up, c := up[1..], Fill(f, c);
        ClimbFacts(nodes, up, c);
      }
      PrevAbove(up, c, n);
      q := nodes[cur].parent;
    }

    /** `valueOf`: `*find(k)`, so a missing key raises out_of_range. */
    method ValueOf(k: int) returns (r: Result<V>)
      requires Valid()
      ensures k in Contents() <==> r.Ok?
      ensures r.Ok? ==> r.value == Contents()[k]
    {
      var n := Find(k);
      var d := Deref(n);
      if d.OutOfRange? {
        return OutOfRange;
      }
      r := Ok(d.value.1);
    }

    /** `isEmpty`: the count is zero. */
    method IsEmpty() returns (b: bool)
      requires Valid()
      ensures b <==> Contents() == map[]
      ensures b <==> Order() == []
    {
      MapSize(tree);
      ItemsMembers(tree);
      b := nodeCounter == 0;
    }

    /** `getSize`: the count, which is the number of stored keys. */
    method GetSize() returns (size: nat)
      requires Valid()
      ensures size == |Contents()| && size == |Order()|
    {
      MapSize(tree);
      ItemsMembers(tree);
      size := nodeCounter;
    }

    /**
     * One step of a traversal, as `operator==` and the copy loop take it:
     * dereference the handle of the `i`-th node, then advance it.
     */
    method Step(it: int, ghost i: nat) returns (p: (int, V), next: int)
      requires Valid() && i < |Order()| && it == Order()[i].id
      ensures p == (Order()[i].key, Order()[i].value)
      ensures next == NIL <==> i + 1 == |Order()|
      ensures i + 1 < |Order()| ==> next == Order()[i + 1].id
    {
      ItemsMembers(tree);
      var d := Deref(it);
      var r := Next(it);
      assert d == Ok((Order()[i].key, Order()[i].value)) && r == Ok(NextId(Order(), i));
      p, next := d.value, r.value;
      assert i + 1 < |Order()| ==> next != NIL by { WiredItems(nodes, tree, NIL); }
    }

    /**
     * `operator==`: maps of different sizes differ; otherwise both are
     * iterated side by side and compared pair by pair.
     */
    method Equals(other: TreeMap<V>) returns (b: bool)
      requires Valid() && other.Valid()
      ensures b <==> Pairs(tree) == Pairs(other.tree)
      ensures b <==> Contents() == other.Contents()
    {
      SameMapSamePairs(tree, other.tree);
      PairsItems(tree);
      PairsItems(other.tree);
      var size := GetSize();
      var otherSize := other.GetSize();
      if otherSize != size {
        return false;
      }
      b := SamePairs(other);
    }

    /** The side-by-side traversal of `operator==`, for maps of one size. */
    method SamePairs(other: TreeMap<V>) returns (b: bool)
      requires Valid() && other.Valid() && |Order()| == |other.Order()|
      ensures b <==> Pairs(tree) == Pairs(other.tree)
    {
      PairsItems(tree);
      PairsItems(other.tree);
      ghost var ps, qs := Pairs(tree), Pairs(other.tree);
      var it1 := Begin();
      var it2 := other.Begin();
      ghost var i := 0;
      while it1 != NIL
        invariant 0 <= i <= |Order()|
        invariant it1 == NIL <==> i == |Order()|
        invariant i < |Order()| ==> it1 == Order()[i].id && it2 == other.Order()[i].id
        invariant forall j | 0 <= j < i :: ps[j] == qs[j]
        decreases |Order()| - i
      {
        var p1, n1 := Step(it1, i);
        var p2, n2 := other.Step(it2, i);
        assert p1 == ps[i] && p2 == qs[i];
        if p1 != p2 {
          return false;
        }
        it1, it2 := n1, n2;
        i := i + 1;
      }
      return true;
    }

    /**
     * `removeTree`: every node is released (the recursive `removeAllNodes`
     * below the root, then the root) and the map is left empty. An empty
     * map is left as it is.
     */
    method RemoveTree()
      requires Valid()
      modifies this
      ensures Valid() && tree == Leaf && root == NIL && nodeCounter == 0
      ensures Contents() == map[] && Order() == []
      ensures old(root) == NIL ==> nodes == old(nodes)
    {
      if root == NIL {
        assert tree == Leaf by { WiredBounds(nodes, tree, NIL); }
        return;
      }
      nodes := [];
      nodeCounter := 0;
      root := NIL;
      tree := Leaf;
    }

    /**
     * The loop shared by copy construction and copy assignment: every pair
     * of `other`, in iteration order, is inserted into this empty map.
     */
    method CopyFrom(other: TreeMap<V>)
      requires Valid() && other.Valid() && other != this && tree == Leaf
      modifies this
      ensures Valid() && Contents() == other.Contents() && nodeCounter == other.nodeCounter
    {
      ghost var ot := other.tree;
      ghost var ps := Pairs(ot);
      PairsItems(ot);
      PairsSorted(ot);
      var it := other.Begin();
      ghost var i := 0;
      while it != NIL
        invariant Valid() && other.Valid() && other.tree == ot
        invariant 0 <= i <= |ps| == |other.Order()|
        invariant it == NIL <==> i == |ps|
        invariant i < |ps| ==> it == other.Order()[i].id
        invariant Contents() == MapOfPairs(ps[..i])
        decreases |ps| - i
      {
        it := CopyEntry(other, it, ps, i);
        i := i + 1;
      }
      assert ps[..i] == ps;
      PairsMap(ot);
      MapSize(tree);
      MapSize(ot);
    }

    /**
     * One turn of the copy loop: the `i`-th pair of `other` is inserted
     * (its key is larger than every key copied so far) and the iterator
     * advanced.
     */
    method CopyEntry(other: TreeMap<V>, it: int, ghost ps: seq<(int, V)>, ghost i: nat) returns (next: int)
      requires Valid() && other.Valid() && other != this
      requires ps == Pairs(other.tree) && |ps| == |other.Order()|
      requires i < |ps| && it == other.Order()[i].id
      requires Contents() == MapOfPairs(ps[..i])
      modifies this
      ensures Valid() && Contents() == MapOfPairs(ps[..i + 1])
      ensures next == NIL <==> i + 1 == |ps|
      ensures i + 1 < |ps| ==> next == other.Order()[i + 1].id
    {
      PairsItems(other.tree);
      PairsSorted(other.tree);
      var p;
      p, next := other.Step(it, i);
      assert p == ps[i];
      assert p.0 !in Contents() by {
        assert forall j | 0 <= j < i :: ps[..i][j].0 <= p.0 - 1;
        KeysBelow(ps[..i], p.0 - 1);
      }
      var added := Insert(p.0, p.1);
      assert ps[..i + 1][..i] == ps[..i];
    }

    /** The copy constructor: an independent map with `other`'s pairs. */
    constructor Copy(other: TreeMap<V>)
      requires other.Valid()
      ensures Valid() && Contents() == other.Contents() && nodeCounter == other.nodeCounter
      ensures blank == other.blank
    {
      nodes := [];
      root := NIL;
      nodeCounter := 0;
      tree := Leaf;
      blank := other.blank;
      new;
      CopyFrom(other);
    }

    /** Copy assignment: unless `other` is this map, empty it and copy `other`'s pairs in. */
    method CopyAssign(other: TreeMap<V>)
      requires Valid() && other.Valid()
      modifies this
      ensures Valid() && Contents() == old(other.Contents()) && nodeCounter == old(other.nodeCounter)
      ensures other == this ==> nodes == old(nodes) && root == old(root) && tree == old(tree)
    {
      if this != other {
        RemoveTree();
        CopyFrom(other);
      }
    }

    /** The move constructor: takes over `other`'s nodes and leaves `other` empty. */
    constructor Move(other: TreeMap<V>)
      requires other.Valid()
      modifies other
      ensures Valid() && tree == old(other.tree) && Contents() == old(other.Contents()) && nodeCounter == old(other.nodeCounter)
      ensures other.Valid() && other.root == NIL && other.nodeCounter == 0 && other.Contents() == map[]
      ensures blank == other.blank
    {
      nodes := other.nodes;
      root := other.root;
      nodeCounter := other.nodeCounter;
      tree := other.tree;
      blank := other.blank;
      new;
      other.root := NIL;
      other.nodeCounter := 0;
      other.tree := Leaf;
    }

    /**
     * Move assignment: unless `other` is this map, release this map's nodes,
     * take over `other`'s and leave `other` empty.
     */
    method MoveAssign(other: TreeMap<V>)
      requires Valid() && other.Valid()
      modifies this, other
      ensures Valid() && other.Valid()
      ensures tree == old(other.tree) && Contents() == old(other.Contents()) && nodeCounter == old(other.nodeCounter)
      ensures other != this ==> other.root == NIL && other.nodeCounter == 0 && other.Contents() == map[]
    {
      if this != other {
        RemoveTree();
        nodes := other.nodes;
        root := other.root;
        nodeCounter := other.nodeCounter;
        tree := other.tree;
        other.root := NIL;
        other.nodeCounter := 0;
        other.tree := Leaf;
      }
    }
  }
}
