/**
 * The search tree behind TreeMap, as a value.
 *
 * A `Tree` mirrors the nodes reachable from the root of a TreeMap: every
 * branch carries the handle (`id`) of its node in the node arena together
 * with the node's key and value. The functions here are the specification
 * of the TreeMap operations: key search (`SubAt`), the position a search
 * stops at (`ParentAt`, `PathTo`), substitution of the subtree a search
 * stops at (`ReplaceAt`), leaf insertion (`Inserted`) and the three-case
 * deletion (`RemoveRoot`, `Deleted`), and the in-order traversal (`Items`).
 */
module BinaryTree {
  import opened PairMaps

  /** The handle that stands for `nullptr`. */
  const NIL: int := -1

  datatype Tree<V> = Leaf | Branch(left: Tree<V>, id: int, key: int, value: V, right: Tree<V>)

  /** One position of the in-order traversal: a node handle with its key and value. */
  datatype Item<V> = Item(id: int, key: int, value: V)

  function RootId<V>(t: Tree<V>): int {
    if t.Leaf? then NIL else t.id
  }

  function Ids<V>(t: Tree<V>): set<int> {
    match t
    case Leaf => {}
    case Branch(l, i, _, _, r) => Ids(l) + {i} + Ids(r)
  }

  function Keys<V>(t: Tree<V>): set<int> {
    match t
    case Leaf => {}
    case Branch(l, _, k, _, r) => Keys(l) + {k} + Keys(r)
  }

  function Size<V>(t: Tree<V>): nat {
    match t
    case Leaf => 0
    case Branch(l, _, _, _, r) => Size(l) + 1 + Size(r)
  }

  /** The key/value association the tree stores. */
  function Map<V>(t: Tree<V>): map<int, V> {
    match t
    case Leaf => map[]
    case Branch(l, _, k, v, r) => (Map(l) + Map(r))[k := v]
  }

  /** The in-order traversal: the order in which the iterator visits the nodes. */
  function Items<V>(t: Tree<V>): seq<Item<V>> {
    match t
    case Leaf => []
    case Branch(l, i, k, v, r) => Items(l) + [Item(i, k, v)] + Items(r)
  }

  /** The in-order sequence of (key, value) pairs, as the iterator dereferences them. */
  function Pairs<V>(t: Tree<V>): seq<(int, V)> {
    match t
    case Leaf => []
    case Branch(l, _, k, v, r) => Pairs(l) + [(k, v)] + Pairs(r)
  }

  /** The binary-search-tree ordering: left keys are smaller, right keys larger. */
  ghost predicate Ordered<V>(t: Tree<V>) {
    match t
    case Leaf => true
    case Branch(l, _, k, _, r) =>
      && (forall x | x in Keys(l) :: x < k)
      && (forall x | x in Keys(r) :: k < x)
      && Ordered(l) && Ordered(r)
  }

  /** No node handle occurs twice. */
  ghost predicate Distinct<V>(t: Tree<V>) {
    match t
    case Leaf => true
    case Branch(l, i, _, _, r) =>
      i !in Ids(l) && i !in Ids(r) && Ids(l) !! Ids(r) && Distinct(l) && Distinct(r)
  }

  /** Where a search for `k` stops: the branch holding `k`, or the empty link it would hang from. */
  function SubAt<V>(t: Tree<V>, k: int): Tree<V> {
    match t
    case Leaf => Leaf
    case Branch(l, _, kt, _, r) =>
      if k == kt then t else if kt < k then SubAt(r, k) else SubAt(l, k)
  }

  /** The handle of the parent of `SubAt(t, k)`, where `p` is the parent of `t` itself. */
  function ParentAt<V>(t: Tree<V>, k: int, p: int): int {
    match t
    case Leaf => p
    case Branch(l, i, kt, _, r) =>
      if k == kt then p else if kt < k then ParentAt(r, k, i) else ParentAt(l, k, i)
  }

  /** `t` with `SubAt(t, k)` replaced by `s`. */
  function ReplaceAt<V>(t: Tree<V>, k: int, s: Tree<V>): Tree<V> {
    match t
    case Leaf => s
    case Branch(l, i, kt, v, r) =>
      if k == kt then s
      else if kt < k then Branch(l, i, kt, v, ReplaceAt(r, k, s))
      else Branch(ReplaceAt(l, k, s), i, kt, v, r)
  }

  /** The leftmost branch. */
  function MinNode<V>(t: Tree<V>): (m: Tree<V>)
    requires t.Branch?
    ensures m.Branch?
  {
    if t.left.Leaf? then t else MinNode(t.left)
  }

  /** The rightmost branch. */
  function MaxNode<V>(t: Tree<V>): (m: Tree<V>)
    requires t.Branch?
    ensures m.Branch?
  {
    if t.right.Leaf? then t else MaxNode(t.right)
  }

  /**
   * Deletes the root of `t` by the three textbook cases: no left child, no
   * right child, or both, where the minimum of the right subtree is first
   * spliced out of its place and then takes the place of the root.
   */
  function RemoveRoot<V>(t: Tree<V>): Tree<V> {
    match t
    case Leaf => Leaf
    case Branch(l, _, _, _, r) =>
      if l.Leaf? then r
      else if r.Leaf? then l
      else
        var m := MinNode(r);
        Branch(l, m.id, m.key, m.value, ReplaceAt(r, m.key, m.right))
  }

  /** Leaf insertion of a new node `id` holding (k, v). */
  function Inserted<V>(t: Tree<V>, k: int, v: V, id: int): Tree<V> {
    ReplaceAt(t, k, Branch(Leaf, id, k, v, Leaf))
  }

  /** Deletion of the node holding `k`. */
  function Deleted<V>(t: Tree<V>, k: int): Tree<V> {
    ReplaceAt(t, k, RemoveRoot(SubAt(t, k)))
  }

  // ---------------------------------------------------------------------
  // Search

  lemma {:induction false} SubAtFacts<V>(t: Tree<V>, k: int)
    ensures Keys(SubAt(t, k)) <= Keys(t) && Ids(SubAt(t, k)) <= Ids(t) && Size(SubAt(t, k)) <= Size(t)
    ensures SubAt(t, k).Branch? ==> SubAt(t, k).key == k
    ensures Ordered(t) ==> Ordered(SubAt(t, k))
    ensures Distinct(t) ==> Distinct(SubAt(t, k))
  {
    match t
    case Leaf =>
    case Branch(l, _, kt, _, r) =>
      if k != kt {
        if kt < k { SubAtFacts(r, k); } else { SubAtFacts(l, k); }
      }
  }

  lemma {:induction false} MapKeys<V>(t: Tree<V>)
    ensures Map(t).Keys == Keys(t)
  {
    match t
    case Leaf =>
    case Branch(l, _, _, _, r) => MapKeys(l); MapKeys(r);
  }

  /** A search finds `k` exactly when the tree holds it, and then finds its value. */
  lemma {:induction false} SearchCorrect<V>(t: Tree<V>, k: int)
    requires Ordered(t)
    ensures SubAt(t, k).Branch? <==> k in Keys(t)
    ensures k in Keys(t) ==> k in Map(t) && Map(t)[k] == SubAt(t, k).value && SubAt(t, k).key == k
  {
    MapKeys(t);
    match t
    case Leaf =>
    case Branch(l, _, kt, _, r) =>
      MapKeys(l); MapKeys(r);
      if k != kt {
        if kt < k { SearchCorrect(r, k); } else { SearchCorrect(l, k); }
      }
  }

  /** In an ordered tree every subtree agrees with the whole tree on the keys it holds. */
  lemma {:induction false} MapAgrees<V>(t: Tree<V>, k: int)
    requires Ordered(t)
    ensures forall x | x in Keys(SubAt(t, k)) :: x in Map(t) && x in Map(SubAt(t, k)) && Map(t)[x] == Map(SubAt(t, k))[x]
  {
    MapKeys(t);
    MapKeys(SubAt(t, k));
    match t
    case Leaf =>
    case Branch(l, _, kt, _, r) =>
      MapKeys(l); MapKeys(r);
      if k != kt {
        SubAtFacts(t, k);
        if kt < k { MapAgrees(r, k); } else { MapAgrees(l, k); }
      }
  }

  // ---------------------------------------------------------------------
  // Substitution at a search position

  /** The keys outside the search position of `k` lie on the far side of `k` from each ancestor. */
  lemma {:induction false} ReplaceAtKeys<V>(t: Tree<V>, k: int, s: Tree<V>)
    requires Ordered(t)
    ensures Keys(ReplaceAt(t, k, s)) == (Keys(t) - Keys(SubAt(t, k))) + Keys(s)
  {
    match t
    case Leaf =>
    case Branch(l, i, kt, v, r) =>
      if k != kt {
        if kt < k {
          SubAtFacts(r, k);
          ReplaceAtKeys(r, k, s);
          forall x | x in Keys(SubAt(r, k)) ensures x != kt && x !in Keys(l) {
            assert x in Keys(r);
          }
        } else {
          SubAtFacts(l, k);
          ReplaceAtKeys(l, k, s);
          forall x | x in Keys(SubAt(l, k)) ensures x != kt && x !in Keys(r) {
            assert x in Keys(l);
          }
        }
      }
  }

  lemma {:induction false} ReplaceAtOrdered<V>(t: Tree<V>, k: int, s: Tree<V>)
    requires Ordered(t) && Ordered(s)
    requires forall x | x in Keys(s) :: x in Keys(SubAt(t, k)) || x == k
    ensures Ordered(ReplaceAt(t, k, s))
  {
    match t
    case Leaf =>
    case Branch(l, i, kt, v, r) =>
      if k != kt {
        if kt < k {
          SubAtFacts(r, k);
          ReplaceAtOrdered(r, k, s);
          ReplaceAtKeys(r, k, s);
        } else {
          SubAtFacts(l, k);
          ReplaceAtOrdered(l, k, s);
          ReplaceAtKeys(l, k, s);
        }
      }
  }

  lemma {:induction false} ReplaceAtSize<V>(t: Tree<V>, k: int, s: Tree<V>)
    ensures Size(ReplaceAt(t, k, s)) + Size(SubAt(t, k)) == Size(t) + Size(s)
  {
    match t
    case Leaf =>
    case Branch(l, i, kt, v, r) =>
      if k != kt {
        if kt < k { ReplaceAtSize(r, k, s); } else { ReplaceAtSize(l, k, s); }
      }
  }

  lemma ReplaceAtSpec<V>(t: Tree<V>, k: int, s: Tree<V>)
    requires Ordered(t) && Ordered(s)
    requires forall x | x in Keys(s) :: x in Keys(SubAt(t, k)) || x == k
    ensures Ordered(ReplaceAt(t, k, s))
    ensures Keys(ReplaceAt(t, k, s)) == (Keys(t) - Keys(SubAt(t, k))) + Keys(s)
    ensures Size(ReplaceAt(t, k, s)) + Size(SubAt(t, k)) == Size(t) + Size(s)
  {
    ReplaceAtOrdered(t, k, s);
    ReplaceAtKeys(t, k, s);
    ReplaceAtSize(t, k, s);
  }

  lemma {:induction false} ReplaceAtMap<V>(t: Tree<V>, k: int, s: Tree<V>)
    requires Ordered(t)
    requires forall x | x in Keys(s) :: x in Keys(SubAt(t, k)) || x == k
    ensures Map(ReplaceAt(t, k, s)) == (Map(t) - Keys(SubAt(t, k))) + Map(s)
    decreases t, 1
  {
    MapKeys(t);
    match t
    case Leaf =>
    case Branch(l, i, kt, v, r) =>
      if k != kt {
        if kt < k {
          ReplaceRightMap(l, i, kt, v, r, k, s);
        } else {
          ReplaceLeftMap(l, i, kt, v, r, k, s);
        }
      }
  }

  lemma {:induction false} ReplaceRightMap<V>(l: Tree<V>, i: int, kt: int, v: V, r: Tree<V>, k: int, s: Tree<V>)
    requires Ordered(Branch(l, i, kt, v, r)) && kt < k
    requires forall x | x in Keys(s) :: x in Keys(SubAt(r, k)) || x == k
    ensures Map(ReplaceAt(Branch(l, i, kt, v, r), k, s)) == (Map(Branch(l, i, kt, v, r)) - Keys(SubAt(r, k))) + Map(s)
    decreases Branch(l, i, kt, v, r), 0
  {
    var u := SubAt(r, k);
    MapKeys(l); MapKeys(r); MapKeys(s);
    SubAtFacts(r, k);
    ReplaceAtMap(r, k, s);
    forall x | x in Keys(u) || x in Keys(s) ensures x != kt && x !in Keys(l) {
      if x in Keys(u) { assert x in Keys(r); }
    }
    SpliceRight(Map(l), kt, v, Map(r), Keys(u), Map(s));
  }

  lemma {:induction false} ReplaceLeftMap<V>(l: Tree<V>, i: int, kt: int, v: V, r: Tree<V>, k: int, s: Tree<V>)
    requires Ordered(Branch(l, i, kt, v, r)) && k < kt
    requires forall x | x in Keys(s) :: x in Keys(SubAt(l, k)) || x == k
    ensures Map(ReplaceAt(Branch(l, i, kt, v, r), k, s)) == (Map(Branch(l, i, kt, v, r)) - Keys(SubAt(l, k))) + Map(s)
    decreases Branch(l, i, kt, v, r), 0
  {
    var u := SubAt(l, k);
    MapKeys(l); MapKeys(r); MapKeys(s);
    SubAtFacts(l, k);
    ReplaceAtMap(l, k, s);
    forall x | x in Keys(u) || x in Keys(s) ensures x != kt && x !in Keys(r) {
      if x in Keys(u) { assert x in Keys(l); }
    }
    SpliceLeft(Map(l), kt, v, Map(r), Keys(u), Map(s));
  }

  lemma SpliceRight<V>(ml: map<int, V>, kt: int, v: V, mr: map<int, V>, u: set<int>, ms: map<int, V>)
    requires kt !in u && kt !in ms && u !! ml.Keys && ms.Keys !! ml.Keys
    ensures (ml + ((mr - u) + ms))[kt := v] == ((ml + mr)[kt := v] - u) + ms
  {
    var lhs := (ml + ((mr - u) + ms))[kt := v];
    var rhs := ((ml + mr)[kt := v] - u) + ms;
    forall x ensures (x in lhs <==> x in rhs) && (x in lhs ==> lhs[x] == rhs[x]) {
    }
  }

  lemma SpliceLeft<V>(ml: map<int, V>, kt: int, v: V, mr: map<int, V>, u: set<int>, ms: map<int, V>)
    requires kt !in u && kt !in ms && u !! mr.Keys && ms.Keys !! mr.Keys
    ensures (((ml - u) + ms) + mr)[kt := v] == ((ml + mr)[kt := v] - u) + ms
  {
    var lhs := (((ml - u) + ms) + mr)[kt := v];
    var rhs := ((ml + mr)[kt := v] - u) + ms;
    forall x ensures (x in lhs <==> x in rhs) && (x in lhs ==> lhs[x] == rhs[x]) {
    }
  }

  lemma {:induction false} ReplaceAtIds<V>(t: Tree<V>, k: int, s: Tree<V>)
    requires Distinct(t) && Distinct(s)
    requires Ids(s) !! (Ids(t) - Ids(SubAt(t, k)))
    ensures Distinct(ReplaceAt(t, k, s))
    ensures Ids(ReplaceAt(t, k, s)) == (Ids(t) - Ids(SubAt(t, k))) + Ids(s)
  {
    match t
    case Leaf =>
    case Branch(l, i, kt, v, r) =>
      if k != kt {
        if kt < k {
          SubAtFacts(r, k);
          SpliceIds(Ids(l), i, Ids(r), Ids(SubAt(r, k)), Ids(s));
          ReplaceAtIds(r, k, s);
        } else {
          SubAtFacts(l, k);
          SpliceIds(Ids(r), i, Ids(l), Ids(SubAt(l, k)), Ids(s));
          ReplaceAtIds(l, k, s);
        }
      }
  }

  /** Set algebra for substituting inside one child `c` of a node `i` whose other child is `o`. */
  lemma SpliceIds(o: set<int>, i: int, c: set<int>, u: set<int>, s: set<int>)
    requires u <= c && i !in c && i !in o && o !! c
    requires s !! ((o + {i} + c) - u)
    ensures s !! (c - u)
    ensures i !in (c - u) + s && o !! ((c - u) + s)
    ensures o + {i} + ((c - u) + s) == ((o + {i} + c) - u) + s
    ensures ((c - u) + s) + {i} + o == ((c + {i} + o) - u) + s
  {
  }

  /** After substituting a branch holding `k`, a search for `k` stops at it, below the same parent. */
  lemma {:induction false} SearchAfterReplace<V>(t: Tree<V>, k: int, s: Tree<V>, p: int)
    requires s.Branch? && s.key == k
    ensures SubAt(ReplaceAt(t, k, s), k) == s
    ensures ParentAt(ReplaceAt(t, k, s), k, p) == ParentAt(t, k, p)
  {
    match t
    case Leaf =>
    case Branch(l, i, kt, v, r) =>
      if k != kt {
        if kt < k { SearchAfterReplace(r, k, s, i); } else { SearchAfterReplace(l, k, s, i); }
      }
  }

  // ---------------------------------------------------------------------
  // Minimum and maximum

  lemma {:induction false} MinNodeFirst<V>(t: Tree<V>)
    requires t.Branch?
    ensures MinNode(t).Branch? && MinNode(t).left.Leaf?
    ensures Items(t)[0] == Item(MinNode(t).id, MinNode(t).key, MinNode(t).value)
  {
    if t.left.Branch? { MinNodeFirst(t.left); }
  }

  lemma {:induction false} MaxNodeLast<V>(t: Tree<V>)
    requires t.Branch?
    ensures MaxNode(t).Branch? && MaxNode(t).right.Leaf?
    ensures Items(t)[|Items(t)| - 1] == Item(MaxNode(t).id, MaxNode(t).key, MaxNode(t).value)
  {
    if t.right.Branch? { MaxNodeLast(t.right); }
  }

  /** In an ordered tree the leftmost branch holds the least key and a search for it stops there. */
  lemma {:induction false} MinNodeLeast<V>(t: Tree<V>)
    requires t.Branch? && Ordered(t)
    ensures MinNode(t).key in Keys(t)
    ensures forall x | x in Keys(t) :: MinNode(t).key <= x
    ensures SubAt(t, MinNode(t).key) == MinNode(t)
  {
    if t.left.Branch? {
      MinNodeLeast(t.left);
    }
  }

  // ---------------------------------------------------------------------
  // Deletion and insertion

  /** Splicing a subtree that agrees with `m` back in place of itself, minus or with a changed key. */
  lemma MapSplice<V>(m: map<int, V>, n: map<int, V>, k: int, v: V)
    requires n.Keys <= m.Keys && k in n
    requires forall x | x in n :: m[x] == n[x]
    ensures (m - n.Keys) + (n - {k}) == m - {k}
    ensures (m - n.Keys) + n[k := v] == m[k := v]
  {
    var a, b := (m - n.Keys) + (n - {k}), m - {k};
    forall x ensures (x in a <==> x in b) && (x in a ==> a[x] == b[x]) {
    }
    assert a == b;
    var c, d := (m - n.Keys) + n[k := v], m[k := v];
    forall x ensures (x in c <==> x in d) && (x in c ==> c[x] == d[x]) {
    }
    assert c == d;
  }

  /** Removing the root deletes exactly the root's key and keeps the ordering. */
  lemma {:induction false} RemoveRootSpec<V>(t: Tree<V>)
    requires t.Branch? && Ordered(t)
    ensures Ordered(RemoveRoot(t))
    ensures Keys(RemoveRoot(t)) == Keys(t) - {t.key}
    ensures Map(RemoveRoot(t)) == Map(t) - {t.key}
    ensures Size(RemoveRoot(t)) + 1 == Size(t)
    decreases Size(t), 1
  {
    var l, r := t.left, t.right;
    if l.Leaf? || r.Leaf? {
      MapKeys(l); MapKeys(r);
      assert Map(t) - {t.key} == Map(l) + Map(r);
    } else {
      RemoveSuccessor(t);
    }
  }

  /** The two-children case: the minimum of the right subtree, spliced out, takes the root's place. */
  lemma {:induction false} RemoveSuccessor<V>(t: Tree<V>)
    requires t.Branch? && t.left.Branch? && t.right.Branch? && Ordered(t)
    ensures Ordered(RemoveRoot(t))
    ensures Keys(RemoveRoot(t)) == Keys(t) - {t.key}
    ensures Map(RemoveRoot(t)) == Map(t) - {t.key}
    ensures Size(RemoveRoot(t)) + 1 == Size(t)
    decreases Size(t), 0
  {
    var l, r := t.left, t.right;
    var m := MinNode(r);
    MinNodeLeast(r);
    MinNodeFirst(r);
    DeleteSpec(r, m.key);
    var r' := Deleted(r, m.key);
    assert r' == ReplaceAt(r, m.key, m.right);
    var rr := RemoveRoot(t);
    assert rr == Branch(l, m.id, m.key, m.value, r');
    SuccessorMap(t);
  }

  lemma SuccessorMap<V>(t: Tree<V>)
    requires t.Branch? && t.left.Branch? && t.right.Branch? && Ordered(t)
    requires Map(ReplaceAt(t.right, MinNode(t.right).key, MinNode(t.right).right)) == Map(t.right) - {MinNode(t.right).key}
    ensures Map(RemoveRoot(t)) == Map(t) - {t.key}
  {
    var l, r := t.left, t.right;
    var m := MinNode(r);
    var r' := ReplaceAt(r, m.key, m.right);
    assert RemoveRoot(t) == Branch(l, m.id, m.key, m.value, r');
    MinNodeLeast(r);
    SearchCorrect(r, m.key);
    MapKeys(l); MapKeys(r);
    assert t.key !in Map(l) && t.key !in Map(r) && m.key !in Map(l);
    SpliceMaps(Map(l), Map(r), Map(r'), m.key, m.value, t.key, t.value);
  }

  lemma SpliceMaps<V>(ml: map<int, V>, mr: map<int, V>, mr': map<int, V>, mk: int, mv: V, tk: int, tv: V)
    requires mr' == mr - {mk} && mk in mr && mr[mk] == mv
    requires tk !in ml && tk !in mr && mk !in ml
    ensures (ml + mr')[mk := mv] == (ml + mr)[tk := tv] - {tk}
  {
  }

  /** Deleting a present key removes exactly that key, and keeps the ordering. */
  lemma {:induction false} DeleteSpec<V>(t: Tree<V>, k: int)
    requires Ordered(t) && k in Keys(t)
    ensures Ordered(Deleted(t, k))
    ensures Keys(Deleted(t, k)) == Keys(t) - {k}
    ensures Map(Deleted(t, k)) == Map(t) - {k}
    ensures Size(Deleted(t, k)) + 1 == Size(t)
    decreases Size(t), 2
  {
    var u := SubAt(t, k);
    SearchCorrect(t, k);
    SubAtFacts(t, k);
    RemoveRootSpec(u);
    ReplaceAtSpec(t, k, RemoveRoot(u));
    ReplaceAtMap(t, k, RemoveRoot(u));
    MapAgrees(t, k);
    MapKeys(t); MapKeys(u);
    MapSplice(Map(t), Map(u), k, u.value);
  }

  /** Removing the root of a tree without repeated handles removes exactly the root's handle. */
  lemma {:induction false} RemoveRootIds<V>(t: Tree<V>)
    requires t.Branch? && Ordered(t) && Distinct(t)
    ensures Distinct(RemoveRoot(t)) && Ids(RemoveRoot(t)) == Ids(t) - {t.id}
    decreases Size(t), 0
  {
    var l, r := t.left, t.right;
    if l.Branch? && r.Branch? {
      var m := MinNode(r);
      MinNodeLeast(r);
      MinNodeFirst(r);
      SubAtFacts(r, m.key);
      DeleteIds(r, m.key);
      var r' := Deleted(r, m.key);
      assert r' == ReplaceAt(r, m.key, m.right);
      assert m.id in Ids(r);
      assert RemoveRoot(t) == Branch(l, m.id, m.key, m.value, r');
    }
  }

  /** Deleting a present key removes exactly the handle of the node that held it. */
  lemma {:induction false} DeleteIds<V>(t: Tree<V>, k: int)
    requires Ordered(t) && Distinct(t) && k in Keys(t)
    ensures SubAt(t, k).Branch? && Distinct(Deleted(t, k)) && Ids(Deleted(t, k)) == Ids(t) - {SubAt(t, k).id}
    decreases Size(t), 1
  {
    var u := SubAt(t, k);
    SearchCorrect(t, k);
    SubAtFacts(t, k);
    RemoveRootIds(u);
    ReplaceAtIds(t, k, RemoveRoot(u));
  }

  /** Inserting an absent key adds exactly that key, as a leaf, and keeps the ordering. */
  lemma InsertSpec<V>(t: Tree<V>, k: int, v: V, id: int)
    requires Ordered(t) && k !in Keys(t)
    ensures Ordered(Inserted(t, k, v, id))
    ensures Keys(Inserted(t, k, v, id)) == Keys(t) + {k}
    ensures Map(Inserted(t, k, v, id)) == Map(t)[k := v]
    ensures Size(Inserted(t, k, v, id)) == Size(t) + 1
    ensures SubAt(Inserted(t, k, v, id), k) == Branch(Leaf, id, k, v, Leaf)
  {
    var s := Branch(Leaf, id, k, v, Leaf);
    SearchCorrect(t, k);
    ReplaceAtSpec(t, k, s);
    InsertMap(t, k, v, id);
    SearchAfterReplace(t, k, s, NIL);
  }

  lemma InsertMap<V>(t: Tree<V>, k: int, v: V, id: int)
    requires Ordered(t) && k !in Keys(t)
    ensures Map(Inserted(t, k, v, id)) == Map(t)[k := v]
  {
    var s := Branch(Leaf, id, k, v, Leaf);
    SearchCorrect(t, k);
    ReplaceAtMap(t, k, s);
    assert Map(s) == map[k := v];
  }

  /** The new leaf's handle, when fresh, joins the handles of the tree. */
  lemma InsertIds<V>(t: Tree<V>, k: int, v: V, id: int)
    requires Ordered(t) && k !in Keys(t) && Distinct(t) && id !in Ids(t)
    ensures Distinct(Inserted(t, k, v, id)) && Ids(Inserted(t, k, v, id)) == Ids(t) + {id}
  {
    SearchCorrect(t, k);
    ReplaceAtIds(t, k, Branch(Leaf, id, k, v, Leaf));
  }

  /** The tree with the value held for `k` overwritten (unchanged when `k` is absent). */
  function Updated<V>(t: Tree<V>, k: int, v: V): Tree<V> {
    var u := SubAt(t, k);
    if u.Leaf? then t else ReplaceAt(t, k, u.(value := v))
  }

  /** Overwriting the value held for a present key changes the map at that key only, and no shape. */
  lemma {:induction false} UpdateSpec<V>(t: Tree<V>, k: int, v: V)
    requires Ordered(t) && k in Keys(t)
    ensures Ordered(Updated(t, k, v))
    ensures Keys(Updated(t, k, v)) == Keys(t)
    ensures Map(Updated(t, k, v)) == Map(t)[k := v]
    ensures Size(Updated(t, k, v)) == Size(t)
    ensures Distinct(t) ==> Distinct(Updated(t, k, v)) && Ids(Updated(t, k, v)) == Ids(t)
  {
    var u := SubAt(t, k);
    SearchCorrect(t, k);
    SubAtFacts(t, k);
    var s := u.(value := v);
    assert Keys(s) == Keys(u) && Ids(s) == Ids(u) && Size(s) == Size(u) && Ordered(s);
    assert Map(s) == Map(u)[k := v];
    ReplaceAtSpec(t, k, s);
    ReplaceAtMap(t, k, s);
    MapAgrees(t, k);
    MapKeys(t); MapKeys(u);
    MapSplice(Map(t), Map(u), k, v);
    if Distinct(t) {
      ReplaceAtIds(t, k, s);
    }
  }

  // ---------------------------------------------------------------------
  // In-order traversal

  lemma {:induction false} ItemsMembers<V>(t: Tree<V>)
    ensures |Items(t)| == Size(t)
    ensures forall j | 0 <= j < |Items(t)| :: Items(t)[j].key in Keys(t) && Items(t)[j].id in Ids(t)
  {
    match t
    case Leaf =>
    case Branch(l, i, k, v, r) =>
      ItemsMembers(l); ItemsMembers(r);
      var s := Items(t);
      forall j | 0 <= j < |s| ensures s[j].key in Keys(t) && s[j].id in Ids(t) {
        if j < |Items(l)| {
          assert s[j] == Items(l)[j];
        } else if j > |Items(l)| {
          assert s[j] == Items(r)[j - |Items(l)| - 1];
        }
      }
  }

  /** The in-order traversal of an ordered tree visits the keys in strictly ascending order. */
  lemma {:induction false} ItemsSorted<V>(t: Tree<V>)
    requires Ordered(t)
    ensures forall a, b | 0 <= a < b < |Items(t)| :: Items(t)[a].key < Items(t)[b].key
  {
    match t
    case Leaf =>
    case Branch(l, i, k, v, r) =>
      ItemsSorted(l); ItemsSorted(r);
      ItemsMembers(l); ItemsMembers(r);
      var s := Items(t);
      var nl := |Items(l)|;
      forall a, b | 0 <= a < b < |s| ensures s[a].key < s[b].key {
        if b < nl {
          assert s[a] == Items(l)[a] && s[b] == Items(l)[b];
        } else if a > nl {
          assert s[a] == Items(r)[a - nl - 1] && s[b] == Items(r)[b - nl - 1];
        } else if a < nl {
          assert s[a] == Items(l)[a];
          assert s[a].key < k;
          if b > nl { assert s[b] == Items(r)[b - nl - 1]; }
        } else {
          assert s[b] == Items(r)[b - nl - 1];
        }
      }
  }

  /** No node handle occurs twice in the traversal of a tree without repeated handles. */
  lemma {:induction false} ItemsDistinct<V>(t: Tree<V>)
    requires Distinct(t)
    ensures forall a, b | 0 <= a < b < |Items(t)| :: Items(t)[a].id != Items(t)[b].id
  {
    match t
    case Leaf =>
    case Branch(l, i, k, v, r) =>
      ItemsDistinct(l); ItemsDistinct(r);
      ItemsMembers(l); ItemsMembers(r);
      var s := Items(t);
      var nl := |Items(l)|;
      forall a, b | 0 <= a < b < |s| ensures s[a].id != s[b].id {
        if b < nl {
          assert s[a] == Items(l)[a] && s[b] == Items(l)[b];
        } else if a > nl {
          assert s[a] == Items(r)[a - nl - 1] && s[b] == Items(r)[b - nl - 1];
        } else if a < nl {
          assert s[a] == Items(l)[a];
          if b > nl { assert s[b] == Items(r)[b - nl - 1]; }
        } else {
          assert s[b] == Items(r)[b - nl - 1];
        }
      }
  }

  /** The dereferenced pairs are the keys and values of the traversal. */
  lemma {:induction false} PairsItems<V>(t: Tree<V>)
    ensures |Pairs(t)| == |Items(t)|
    ensures forall j | 0 <= j < |Items(t)| :: Pairs(t)[j] == (Items(t)[j].key, Items(t)[j].value)
  {
    match t
    case Leaf =>
    case Branch(l, i, k, v, r) =>
      PairsItems(l); PairsItems(r);
      var nl := |Items(l)|;
      forall j | 0 <= j < |Items(t)| ensures Pairs(t)[j] == (Items(t)[j].key, Items(t)[j].value) {
        if j < nl {
          assert Pairs(t)[j] == Pairs(l)[j] && Items(t)[j] == Items(l)[j];
        } else if j > nl {
          assert Pairs(t)[j] == Pairs(r)[j - nl - 1] && Items(t)[j] == Items(r)[j - nl - 1];
        }
      }
  }

  /** Collecting the traversal's pairs gives back the tree's map. */
  lemma {:induction false} PairsMap<V>(t: Tree<V>)
    requires Ordered(t)
    ensures MapOfPairs(Pairs(t)) == Map(t)
  {
    match t
    case Leaf =>
    case Branch(l, i, k, v, r) =>
      PairsMap(l); PairsMap(r);
      MapKeys(r);
      MapOfPairsMiddle(Pairs(l), (k, v), Pairs(r));
      assert k !in Map(r);
  }

  /** Pairs in strictly ascending key order. */
  ghost predicate KeySorted<V>(s: seq<(int, V)>) {
    forall a, b | 0 <= a < b < |s| :: s[a].0 < s[b].0
  }

  /** The traversal pairs of an ordered tree are in strictly ascending key order. */
  lemma PairsSorted<V>(t: Tree<V>)
    requires Ordered(t)
    ensures KeySorted(Pairs(t))
  {
    ItemsSorted(t);
    PairsItems(t);
  }

  /** Pairs whose keys are all at most `bound` build a map whose keys are all at most `bound`. */
  lemma {:induction false} KeysBelow<V>(s: seq<(int, V)>, bound: int)
    requires forall j | 0 <= j < |s| :: s[j].0 <= bound
    ensures forall x | x in MapOfPairs(s) :: x <= bound
    decreases |s|
  {
    if s != [] {
      var s' := s[..|s| - 1];
      assert forall j | 0 <= j < |s'| :: s'[j] == s[j];
      KeysBelow(s', bound);
    }
  }

  /**
   * The last of key-sorted pairs holds the largest key of their map, and the
   * pairs before it build that map without the key.
   */
  lemma SortedLast<V>(s: seq<(int, V)>)
    requires KeySorted(s)
    ensures s != [] ==> s[|s| - 1].0 in MapOfPairs(s) && MapOfPairs(s)[s[|s| - 1].0] == s[|s| - 1].1
    ensures s != [] ==> forall x | x in MapOfPairs(s) :: x <= s[|s| - 1].0
    ensures s != [] ==> MapOfPairs(s[..|s| - 1]) == MapOfPairs(s) - {s[|s| - 1].0}
    ensures s != [] ==> KeySorted(s[..|s| - 1])
  {
    if s != [] {
      var n := |s| - 1;
      var s' := s[..n];
      var key := s[n].0;
      assert MapOfPairs(s) == MapOfPairs(s')[key := s[n].1];
      assert forall x | x in MapOfPairs(s) :: x <= key by {
        KeysBelow(s, key);
      }
      assert key !in MapOfPairs(s') by {
        assert forall j | 0 <= j < |s'| :: s'[j].0 <= key - 1 by {
          assert forall j | 0 <= j < |s'| :: s'[j] == s[j];
        }
        KeysBelow(s', key - 1);
      }
      assert KeySorted(s') by {
        assert forall j | 0 <= j < |s'| :: s'[j] == s[j];
      }
    }
  }

  /** Two key-sorted pair sequences that build the same map are the same sequence. */
  lemma {:induction false} SortedPairsUnique<V>(s: seq<(int, V)>, u: seq<(int, V)>)
    requires KeySorted(s) && KeySorted(u) && MapOfPairs(s) == MapOfPairs(u)
    ensures s == u
    decreases |s|
  {
    SortedLast(s);
    SortedLast(u);
    if s != [] && u != [] {
      var n, m := |s| - 1, |u| - 1;
      assert s[n].0 <= u[m].0 && u[m].0 <= s[n].0 by {
        assert s[n].0 in MapOfPairs(u);
        assert u[m].0 in MapOfPairs(s);
      }
      assert s[n] == u[m];
      assert MapOfPairs(s[..n]) == MapOfPairs(u[..m]);
      SortedPairsUnique(s[..n], u[..m]);
      assert s == s[..n] + [s[n]] && u == u[..m] + [u[m]];
    }
  }

  /** Two ordered trees store the same map exactly when they iterate the same pairs. */
  lemma SameMapSamePairs<V>(t: Tree<V>, t': Tree<V>)
    requires Ordered(t) && Ordered(t')
    ensures Map(t) == Map(t') <==> Pairs(t) == Pairs(t')
  {
    PairsMap(t);
    PairsMap(t');
    if Map(t) == Map(t') {
      PairsSorted(t);
      PairsSorted(t');
      SortedPairsUnique(Pairs(t), Pairs(t'));
    }
  }

  /** In an ordered tree distinct nodes hold distinct keys. */
  lemma {:induction false} KeysSize<V>(t: Tree<V>)
    requires Ordered(t)
    ensures |Keys(t)| == Size(t)
  {
    match t
    case Leaf =>
    case Branch(l, i, k, v, r) =>
      KeysSize(l); KeysSize(r);
      var lk := Keys(l) + {k};
      assert k !in Keys(l);
      assert |lk| == |Keys(l)| + 1;
      forall x | x in lk ensures x !in Keys(r) {
      }
      assert lk * Keys(r) == {};
      assert Keys(t) == lk + Keys(r);
  }

  /** In an ordered tree the number of nodes is the number of stored keys. */
  lemma MapSize<V>(t: Tree<V>)
    requires Ordered(t)
    ensures |Map(t)| == Size(t) == |Keys(t)|
  {
    MapKeys(t);
    KeysSize(t);
  }

  // ---------------------------------------------------------------------
  // Positions of a node inside the whole tree (a zipper)

  /** One step from a node up to its parent: which side the node hangs on, and the rest of the parent. */
  datatype Frame<V> =
    | LeftOf(id: int, key: int, value: V, right: Tree<V>)
    | RightOf(left: Tree<V>, id: int, key: int, value: V)

  function Fill<V>(f: Frame<V>, t: Tree<V>): Tree<V> {
    match f
    case LeftOf(i, k, v, r) => Branch(t, i, k, v, r)
    case RightOf(l, i, k, v) => Branch(l, i, k, v, t)
  }

  /** Rebuilds the whole tree from a subtree and the frames from it up to the root (innermost first). */
  function Plug<V>(path: seq<Frame<V>>, t: Tree<V>): Tree<V>
    decreases |path|
  {
    if path == [] then t else Plug(path[1..], Fill(path[0], t))
  }

  /** The handle of the parent of the subtree a path leads to. */
  function ParentId<V>(path: seq<Frame<V>>): int {
    if path == [] then NIL else path[0].id
  }

  /** The frames from `SubAt(t, k)` up to the root of `t`. */
  function PathTo<V>(t: Tree<V>, k: int): seq<Frame<V>> {
    match t
    case Leaf => []
    case Branch(l, i, kt, v, r) =>
      if k == kt then []
      else if kt < k then PathTo(r, k) + [RightOf(l, i, kt, v)]
      else PathTo(l, k) + [LeftOf(i, kt, v, r)]
  }

  /** The traversal items the frames contribute before the subtree. */
  function Before<V>(path: seq<Frame<V>>): seq<Item<V>>
    decreases |path|
  {
    if path == [] then []
    else
      Before(path[1..]) +
      match path[0]
      case LeftOf(_, _, _, _) => []
      case RightOf(l, i, k, v) => Items(l) + [Item(i, k, v)]
  }

  /** The traversal items the frames contribute after the subtree. */
  function After<V>(path: seq<Frame<V>>): seq<Item<V>>
    decreases |path|
  {
    if path == [] then []
    else
      (match path[0]
       case LeftOf(i, k, v, r) => [Item(i, k, v)] + Items(r)
       case RightOf(_, _, _, _) => []) +
      After(path[1..])
  }

  lemma {:induction false} PlugAppend<V>(path: seq<Frame<V>>, f: Frame<V>, t: Tree<V>)
    ensures Plug(path + [f], t) == Fill(f, Plug(path, t))
    decreases |path|
  {
    if path != [] {
      assert (path + [f])[1..] == path[1..] + [f];
      PlugAppend(path[1..], f, Fill(path[0], t));
    }
  }

  /** The search position of `k` and the frames above it make up the whole tree again. */
  lemma {:induction false} PlugPathTo<V>(t: Tree<V>, k: int)
    ensures Plug(PathTo(t, k), SubAt(t, k)) == t
    ensures ParentId(PathTo(t, k)) == ParentAt(t, k, NIL)
  {
    ParentOfPath(t, k, NIL);
    match t
    case Leaf =>
    case Branch(l, i, kt, v, r) =>
      if k != kt {
        if kt < k {
          PlugPathTo(r, k);
          PlugAppend(PathTo(r, k), RightOf(l, i, kt, v), SubAt(r, k));
        } else {
          PlugPathTo(l, k);
          PlugAppend(PathTo(l, k), LeftOf(i, kt, v, r), SubAt(l, k));
        }
      }
  }

  lemma {:induction false} ParentOfPath<V>(t: Tree<V>, k: int, p: int)
    ensures PathTo(t, k) == [] ==> ParentAt(t, k, p) == p
    ensures PathTo(t, k) != [] ==> ParentAt(t, k, p) == PathTo(t, k)[0].id
  {
    match t
    case Leaf =>
    case Branch(l, i, kt, v, r) =>
      if k != kt {
        if kt < k { ParentOfPath(r, k, i); } else { ParentOfPath(l, k, i); }
      }
  }

  /** The traversal of a plugged tree: what the frames contribute around the subtree's own traversal. */
  lemma {:induction false} PlugItems<V>(path: seq<Frame<V>>, t: Tree<V>)
    ensures Items(Plug(path, t)) == Before(path) + Items(t) + After(path)
    decreases |path|
  {
    if path != [] {
      PlugItems(path[1..], Fill(path[0], t));
    }
  }

  lemma {:induction false} PlugDistinct<V>(path: seq<Frame<V>>, t: Tree<V>)
    requires Distinct(Plug(path, t))
    ensures Distinct(t)
    ensures path != [] ==> Distinct(Fill(path[0], t))
    decreases |path|
  {
    if path != [] {
      PlugDistinct(path[1..], Fill(path[0], t));
    }
  }
  /** Every node of a tree is visited by its traversal. */
  lemma {:induction false} ItemsCover<V>(t: Tree<V>)
    ensures forall x | x in Ids(t) :: exists j :: 0 <= j < |Items(t)| && Items(t)[j].id == x
  {
    match t
    case Leaf =>
    case Branch(l, i, k, v, r) =>
      ItemsCover(l); ItemsCover(r);
      var nl := |Items(l)|;
      assert Items(t) == Items(l) + [Item(i, k, v)] + Items(r);
      forall x | x in Ids(t) ensures exists j :: 0 <= j < |Items(t)| && Items(t)[j].id == x {
        if x == i {
          assert Items(t)[nl].id == x;
        } else if x in Ids(l) {
          var j :| 0 <= j < |Items(l)| && Items(l)[j].id == x;
          assert Items(t)[j] == Items(l)[j];
        } else {
          assert x in Ids(r);
          var j :| 0 <= j < |Items(r)| && Items(r)[j].id == x;
          assert Items(t)[nl + 1 + j] == Items(r)[j];
        }
      }
  }

  /** The handle visited after position `j` of a traversal; NIL past the last position. */
  function NextId<V>(s: seq<Item<V>>, j: nat): int
    requires j < |s|
  {
    if j + 1 < |s| then s[j + 1].id else NIL
  }

  /** The handle visited before position `j` of a traversal; NIL before the first position. */
  function PrevId<V>(s: seq<Item<V>>, j: nat): int
    requires j < |s|
  {
    if j > 0 then s[j - 1].id else NIL
  }

  /** In a sequence without repeated handles, a handle fixes its position. */
  lemma PositionUnique<V>(s: seq<Item<V>>, j0: int)
    requires 0 <= j0 < |s|
    requires forall a, b | 0 <= a < b < |s| :: s[a].id != s[b].id
    ensures forall j | 0 <= j < |s| && s[j].id == s[j0].id :: j == j0
  {
  }

  /**
   * The traversal successor of the last node of a subtree that hangs on the
   * left of its parent, or of the whole tree, is that parent, or NIL.
   */
  lemma {:induction false} NextAbove<V>(path: seq<Frame<V>>, s: Tree<V>, n: int)
    requires Distinct(Plug(path, s)) && s.Branch? && n == Items(s)[|Items(s)| - 1].id
    requires path == [] || path[0].LeftOf?
    ensures forall j: nat | j < |Items(Plug(path, s))| && Items(Plug(path, s))[j].id == n ::
      NextId(Items(Plug(path, s)), j) == ParentId(path)
  {
    var all, mid := Items(Plug(path, s)), Items(s);
    var j0 := |Before(path)| + |mid| - 1;
    PlugItems(path, s);
    AfterHead(path);
    assert |mid| >= 1;
    assert all[j0] == mid[|mid| - 1];
    assert NextId(all, j0) == ParentId(path) by {
      if path != [] {
        assert all[j0 + 1] == After(path)[0];
      }
    }
    assert forall j | 0 <= j < |all| && all[j].id == all[j0].id :: j == j0 by {
      ItemsDistinct(Plug(path, s));
      PositionUnique(all, j0);
    }
  }

  /** The first item after a subtree hanging on the left is its parent; nothing follows the whole tree. */
  lemma AfterHead<V>(path: seq<Frame<V>>)
    ensures path == [] ==> After(path) == []
    ensures path != [] && path[0].LeftOf? ==> |After(path)| > 0 && After(path)[0].id == path[0].id
  {
    if path != [] && path[0].LeftOf? {
      var f := path[0];
      assert After(path) == [Item(f.id, f.key, f.value)] + Items(f.right) + After(path[1..]);
    }
  }

  /** The traversal successor of a node with a right subtree is the leftmost node of that subtree. */
  lemma NextBelow<V>(path: seq<Frame<V>>, s: Tree<V>)
    requires Distinct(Plug(path, s)) && s.Branch? && s.right.Branch?
    ensures forall j: nat | j < |Items(Plug(path, s))| && Items(Plug(path, s))[j].id == s.id ::
      NextId(Items(Plug(path, s)), j) == MinNode(s.right).id
  {
    var all := Items(Plug(path, s));
    var j0 := |Before(path)| + |Items(s.left)|;
    PlugItems(path, s);
    MinNodeFirst(s.right);
    assert all == Before(path) + (Items(s.left) + [Item(s.id, s.key, s.value)] + Items(s.right)) + After(path);
    assert all[j0].id == s.id;
    assert all[j0 + 1] == Items(s.right)[0];
    assert forall j | 0 <= j < |all| && all[j].id == all[j0].id :: j == j0 by {
      ItemsDistinct(Plug(path, s));
      PositionUnique(all, j0);
    }
  }

  /**
   * The traversal predecessor of the first node of a subtree that hangs on
   * the right of its parent, or of the whole tree, is that parent, or NIL.
   */
  lemma PrevAbove<V>(path: seq<Frame<V>>, s: Tree<V>, n: int)
    requires Distinct(Plug(path, s)) && s.Branch? && n == Items(s)[0].id
    requires path == [] || path[0].RightOf?
    ensures forall j: nat | j < |Items(Plug(path, s))| && Items(Plug(path, s))[j].id == n ::
      PrevId(Items(Plug(path, s)), j) == ParentId(path)
  {
    var all, mid := Items(Plug(path, s)), Items(s);
    var j0 := |Before(path)|;
    PlugItems(path, s);
    BeforeLast(path);
    assert |mid| >= 1;
    assert all[j0] == mid[0];
    assert PrevId(all, j0) == ParentId(path) by {
      if path != [] {
        assert all[j0 - 1] == Before(path)[|Before(path)| - 1];
      }
    }
    assert forall j | 0 <= j < |all| && all[j].id == all[j0].id :: j == j0 by {
      ItemsDistinct(Plug(path, s));
      PositionUnique(all, j0);
    }
  }

  /** The last item before a subtree hanging on the right is its parent; nothing precedes the whole tree. */
  lemma BeforeLast<V>(path: seq<Frame<V>>)
    ensures path == [] ==> Before(path) == []
    ensures path != [] && path[0].RightOf? ==> |Before(path)| > 0 && Before(path)[|Before(path)| - 1].id == path[0].id
  {
    if path != [] && path[0].RightOf? {
      var f := path[0];
      assert Before(path) == Before(path[1..]) + Items(f.left) + [Item(f.id, f.key, f.value)];
    }
  }

  /** The traversal predecessor of a node with a left subtree is the rightmost node of that subtree. */
  lemma PrevBelow<V>(path: seq<Frame<V>>, s: Tree<V>)
    requires Distinct(Plug(path, s)) && s.Branch? && s.left.Branch?
    ensures forall j: nat | j < |Items(Plug(path, s))| && Items(Plug(path, s))[j].id == s.id ::
      PrevId(Items(Plug(path, s)), j) == MaxNode(s.left).id
  {
    var all, left := Items(Plug(path, s)), Items(s.left);
    var j0 := |Before(path)| + |left|;
    PlugItems(path, s);
    MaxNodeLast(s.left);
    assert all == Before(path) + (left + [Item(s.id, s.key, s.value)] + Items(s.right)) + After(path);
    assert all[j0].id == s.id;
    assert all[j0 - 1] == left[|left| - 1];
    assert forall j | 0 <= j < |all| && all[j].id == all[j0].id :: j == j0 by {
      ItemsDistinct(Plug(path, s));
      PositionUnique(all, j0);
    }
  }
}
