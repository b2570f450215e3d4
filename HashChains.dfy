/**
 * The bucket table behind HashMap, as a value.
 *
 * A table is a sequence of `TABLE_SIZE` chains; a chain is the sequence of
 * the entries of one bucket from head to tail, so a position in a chain
 * stands for a node and its neighbours for the `next` and `prev` links.
 * Iteration visits the buckets in index order and each chain from its head,
 * which is `Flatten`; a `Cursor` (bucket index and position in the chain,
 * or `End`) is an iterator, and `Position` is how many entries iteration
 * visits before it.
 */
module HashChains {
  import opened PairMaps

  /** The number of buckets. */
  const TABLE_SIZE: nat := 1000

  /** The position that stands for a `nullptr` node. */
  const NIL: int := -1

  /** `modHash`: the bucket of a key. */
  function ModHash<K>(hash: K -> nat, k: K): (b: nat)
    ensures b < TABLE_SIZE
  {
    hash(k) % TABLE_SIZE
  }

  /** The entries in iteration order: bucket by bucket, each chain from its head. */
  function Flatten<K, V>(t: seq<seq<(K, V)>>): seq<(K, V)> {
    if t == [] then [] else Flatten(t[..|t| - 1]) + t[|t| - 1]
  }

  /** The map a table stores. */
  ghost function TableMap<K, V>(t: seq<seq<(K, V)>>): map<K, V> {
    MapOfPairs(Flatten(t))
  }

  /** Every entry sits in the bucket of its key, and no chain repeats a key. */
  ghost predicate Placed<K, V>(hash: K -> nat, t: seq<seq<(K, V)>>) {
    forall i | 0 <= i < |t| ::
      DistinctKeys(t[i]) && forall j | 0 <= j < |t[i]| :: ModHash(hash, t[i][j].0) == i
  }

  /** An iterator: a node given by its bucket and its place in the chain, or the end. */
  datatype Cursor = Node(bucket: nat, pos: nat) | End

  /** The cursor is the end or designates an entry of the table. */
  ghost predicate IsCursor<K, V>(t: seq<seq<(K, V)>>, c: Cursor) {
    c.Node? ==> c.bucket < |t| && c.pos < |t[c.bucket]|
  }

  /** The number of entries iteration visits before reaching the cursor. */
  function Position<K, V>(t: seq<seq<(K, V)>>, c: Cursor): nat
    requires IsCursor(t, c)
  {
    if c.End? then |Flatten(t)| else |Flatten(t[..c.bucket])| + c.pos
  }

  /** The bucket iteration starts from when leaving the cursor backwards. */
  function Start<K, V>(t: seq<seq<(K, V)>>, c: Cursor): nat
    requires IsCursor(t, c)
  {
    if c.End? then |t| else c.bucket
  }

  /**
   * `d` is where `operator++` moves from the node `c`: the next node of the
   * chain, or else the head of the next non-empty bucket, or else the end.
   */
  ghost predicate Follows<K, V>(t: seq<seq<(K, V)>>, c: Cursor, d: Cursor)
    requires IsCursor(t, c) && c.Node?
  {
    if c.pos + 1 < |t[c.bucket]| then d == Node(c.bucket, c.pos + 1)
    else
      && (d.Node? ==> c.bucket < d.bucket < |t| && d.pos == 0 && t[d.bucket] != [])
      && forall j | c.bucket < j < (if d.End? then |t| else d.bucket) :: t[j] == []
  }

  /**
   * `d` is where `operator--` moves from `c`: the previous node of the
   * chain, or, from a chain head or the end, the tail of the nearest
   * earlier non-empty bucket.
   */
  ghost predicate Precedes<K, V>(t: seq<seq<(K, V)>>, c: Cursor, d: Cursor)
    requires IsCursor(t, c)
  {
    if c.Node? && c.pos > 0 then d == Node(c.bucket, c.pos - 1)
    else
      && d.Node? && d.bucket < Start(t, c) && t[d.bucket] != [] && d.pos == |t[d.bucket]| - 1
      && forall j | d.bucket < j < Start(t, c) :: t[j] == []
  }

  /** The cursor is the end or a chain head, and every earlier bucket is empty. */
  ghost predicate NoneBefore<K, V>(t: seq<seq<(K, V)>>, c: Cursor)
    requires IsCursor(t, c)
  {
    (c.End? || c.pos == 0) && forall j | 0 <= j < Start(t, c) :: t[j] == []
  }

  // Flattening

  lemma FlattenSnoc<K, V>(t: seq<seq<(K, V)>>, i: nat)
    requires i < |t|
    ensures Flatten(t[..i + 1]) == Flatten(t[..i]) + t[i]
  {
    assert t[..i + 1][..i] == t[..i];
  }

  lemma {:induction false} FlattenAppend<K, V>(a: seq<seq<(K, V)>>, b: seq<seq<(K, V)>>)
    ensures Flatten(a + b) == Flatten(a) + Flatten(b)
    decreases |b|
  {
    if b == [] {
      assert a + b == a;
    } else {
      var b' := b[..|b| - 1];
      assert (a + b)[..|a + b| - 1] == a + b';
      FlattenAppend(a, b');
    }
  }

  /** The entries before a bucket, the bucket's chain, and the entries after it. */
  lemma FlattenAround<K, V>(t: seq<seq<(K, V)>>, i: nat)
    requires i < |t|
    ensures Flatten(t) == Flatten(t[..i]) + t[i] + Flatten(t[i + 1..])
  {
    assert t == t[..i + 1] + t[i + 1..];
    FlattenAppend(t[..i + 1], t[i + 1..]);
    FlattenSnoc(t, i);
  }

  lemma FlattenPrefix<K, V>(t: seq<seq<(K, V)>>, i: nat, j: nat)
    requires i <= j <= |t|
    ensures Flatten(t[..j]) == Flatten(t[..i]) + Flatten(t[i..j])
  {
    assert t[..j] == t[..i] + t[i..j];
    FlattenAppend(t[..i], t[i..j]);
  }

  /** A stretch of empty buckets adds nothing to the iteration. */
  lemma {:induction false} FlattenEmpty<K, V>(t: seq<seq<(K, V)>>)
    ensures Flatten(t) == [] <==> forall i | 0 <= i < |t| :: t[i] == []
    decreases |t|
  {
    if t != [] {
      var n := |t| - 1;
      FlattenEmpty(t[..n]);
      assert forall i | 0 <= i < n :: t[..n][i] == t[i];
    }
  }

  /** Replacing one chain changes the number of entries by the difference in length. */
  lemma FlattenUpdateLength<K, V>(t: seq<seq<(K, V)>>, b: nat, c: seq<(K, V)>)
    requires b < |t|
    ensures |Flatten(t[b := c])| == |Flatten(t)| - |t[b]| + |c|
  {
    FlattenAround(t, b);
    FlattenAround(t[b := c], b);
    assert t[b := c][..b] == t[..b] && t[b := c][b + 1..] == t[b + 1..];
  }

  /** Every entry of a placed table is in a bucket below the table's length. */
  lemma {:induction false} FlattenBuckets<K, V>(hash: K -> nat, t: seq<seq<(K, V)>>)
    requires Placed(hash, t)
    ensures forall j | 0 <= j < |Flatten(t)| :: ModHash(hash, Flatten(t)[j].0) < |t|
    decreases |t|
  {
    if t != [] {
      var n := |t| - 1;
      assert forall i | 0 <= i < n :: t[..n][i] == t[i];
      FlattenBuckets(hash, t[..n]);
    }
  }

  /** A key occurs at most once in the whole table. */
  lemma {:induction false} FlattenDistinct<K, V>(hash: K -> nat, t: seq<seq<(K, V)>>)
    requires Placed(hash, t)
    ensures DistinctKeys(Flatten(t))
    decreases |t|
  {
    if t != [] {
      var n := |t| - 1;
      var f := Flatten(t[..n]);
      assert forall i | 0 <= i < n :: t[..n][i] == t[i];
      FlattenDistinct(hash, t[..n]);
      FlattenBuckets(hash, t[..n]);
      var s := f + t[n];
      forall a, b | 0 <= a < b < |s| ensures s[a].0 != s[b].0 {
        if b >= |f| && a < |f| {
          assert ModHash(hash, s[a].0) < n && ModHash(hash, s[b].0) == n;
        }
      }
    }
  }

  // Cursors

  /** A node's position is the index of its entry in the iteration. */
  lemma PositionEntry<K, V>(t: seq<seq<(K, V)>>, c: Cursor)
    requires IsCursor(t, c) && c.Node?
    ensures Position(t, c) < |Flatten(t)|
    ensures Flatten(t)[Position(t, c)] == t[c.bucket][c.pos]
  {
    FlattenAround(t, c.bucket);
  }

  /** Different cursors are at different positions. */
  lemma PositionInjective<K, V>(t: seq<seq<(K, V)>>, c: Cursor, d: Cursor)
    requires IsCursor(t, c) && IsCursor(t, d) && Position(t, c) == Position(t, d)
    ensures c == d
  {
    if c.Node? { PositionEntry(t, c); }
    if d.Node? { PositionEntry(t, d); }
    if c.Node? && d.Node? && c.bucket != d.bucket {
      var lo, hi := if c.bucket < d.bucket then c else d, if c.bucket < d.bucket then d else c;
      FlattenSnoc(t, lo.bucket);
      FlattenPrefix(t, lo.bucket + 1, hi.bucket);
      assert false;
    }
  }

  /** `operator++`'s move is one step forward in the iteration. */
  lemma FollowsPosition<K, V>(t: seq<seq<(K, V)>>, c: Cursor, d: Cursor)
    requires IsCursor(t, c) && c.Node? && Follows(t, c, d)
    ensures IsCursor(t, d) && Position(t, d) == Position(t, c) + 1
  {
    if c.pos + 1 >= |t[c.bucket]| {
      var e := if d.End? then |t| else d.bucket;
      FlattenSnoc(t, c.bucket);
      FlattenPrefix(t, c.bucket + 1, e);
      FlattenEmpty(t[c.bucket + 1..e]);
      var gap := t[c.bucket + 1..e];
      assert forall j | 0 <= j < |gap| :: gap[j] == t[c.bucket + 1 + j];
      assert t[..|t|] == t;
    }
  }

  /** `operator--`'s move is one step backward in the iteration. */
  lemma PrecedesPosition<K, V>(t: seq<seq<(K, V)>>, c: Cursor, d: Cursor)
    requires IsCursor(t, c) && Precedes(t, c, d)
    ensures IsCursor(t, d) && Position(t, d) + 1 == Position(t, c)
  {
    if !(c.Node? && c.pos > 0) {
      var e := Start(t, c);
      FlattenSnoc(t, d.bucket);
      FlattenPrefix(t, d.bucket + 1, e);
      FlattenEmpty(t[d.bucket + 1..e]);
      var gap := t[d.bucket + 1..e];
      assert forall j | 0 <= j < |gap| :: gap[j] == t[d.bucket + 1 + j];
      assert t[..|t|] == t;
    }
  }

  /** Nothing precedes the cursor exactly when iteration starts there. */
  lemma NoneBeforePosition<K, V>(t: seq<seq<(K, V)>>, c: Cursor)
    requires IsCursor(t, c) && (c.End? || c.pos == 0)
    ensures NoneBefore(t, c) <==> Position(t, c) == 0
  {
    var e := Start(t, c);
    FlattenEmpty(t[..e]);
    assert forall j | 0 <= j < e :: t[..e][j] == t[j];
    assert t[..|t|] == t;
  }

  // The stored map

  /** The map of a placed table agrees with the chain of the key's bucket. */
  lemma {:induction false} TableLookup<K, V>(hash: K -> nat, t: seq<seq<(K, V)>>, k: K)
    requires Placed(hash, t)
    ensures k in TableMap(t) <==> ModHash(hash, k) < |t| && k in MapOfPairs(t[ModHash(hash, k)])
    ensures k in TableMap(t) ==> TableMap(t)[k] == MapOfPairs(t[ModHash(hash, k)])[k]
    decreases |t|
  {
    if t != [] {
      var n := |t| - 1;
      var p := t[..n];
      assert forall i | 0 <= i < n :: p[i] == t[i];
      TableLookup(hash, p, k);
      MapOfPairsAppend(Flatten(p), t[n]);
      assert TableMap(t) == TableMap(p) + MapOfPairs(t[n]);
      var b := ModHash(hash, k);
      if k in MapOfPairs(t[n]) {
        MapOfPairsKeys(t[n]);
        var j :| 0 <= j < |t[n]| && t[n][j].0 == k;
        assert b == n;
      } else if b < n {
        assert t[b] == p[b];
      }
    }
  }

  /** A key is stored exactly when some entry of its bucket carries it. */
  lemma TableKeys<K, V>(hash: K -> nat, t: seq<seq<(K, V)>>, k: K)
    requires Placed(hash, t) && |t| == TABLE_SIZE
    ensures k in TableMap(t) <==> exists j :: 0 <= j < |t[ModHash(hash, k)]| && t[ModHash(hash, k)][j].0 == k
  {
    TableLookup(hash, t, k);
    MapOfPairsKeys(t[ModHash(hash, k)]);
  }

  /** The entry at a node is the stored entry for its key. */
  lemma TableEntry<K, V>(hash: K -> nat, t: seq<seq<(K, V)>>, i: nat, j: nat)
    requires Placed(hash, t) && |t| == TABLE_SIZE && i < |t| && j < |t[i]|
    ensures t[i][j].0 in TableMap(t) && TableMap(t)[t[i][j].0] == t[i][j].1
  {
    TableLookup(hash, t, t[i][j].0);
    MapOfPairsWithout(t[i], j);
  }

  /** After one chain is replaced, a key is looked up in the new chain or as before. */
  lemma TableSwap<K, V>(hash: K -> nat, t: seq<seq<(K, V)>>, b: nat, c: seq<(K, V)>, x: K)
    requires |t| == TABLE_SIZE && b < |t| && Placed(hash, t) && Placed(hash, t[b := c])
    ensures ModHash(hash, x) == b ==> (x in TableMap(t[b := c]) <==> x in MapOfPairs(c))
    ensures ModHash(hash, x) == b && x in MapOfPairs(c) ==> TableMap(t[b := c])[x] == MapOfPairs(c)[x]
    ensures ModHash(hash, x) != b ==> (x in TableMap(t[b := c]) <==> x in TableMap(t))
    ensures ModHash(hash, x) != b && x in TableMap(t) ==> TableMap(t[b := c])[x] == TableMap(t)[x]
  {
    TableLookup(hash, t, x);
    TableLookup(hash, t[b := c], x);
  }

  /** Replacing a key's chain by one that maps the key to `v` updates the stored map at just that key. */
  lemma TableSet<K, V>(hash: K -> nat, t: seq<seq<(K, V)>>, c: seq<(K, V)>, k: K, v: V)
    requires |t| == TABLE_SIZE && Placed(hash, t) && Placed(hash, t[ModHash(hash, k) := c])
    requires MapOfPairs(c) == MapOfPairs(t[ModHash(hash, k)])[k := v]
    ensures TableMap(t[ModHash(hash, k) := c]) == TableMap(t)[k := v]
  {
    var b := ModHash(hash, k);
    var m, m' := TableMap(t)[k := v], TableMap(t[b := c]);
    forall x | x in m ensures x in m' && m'[x] == m[x] {
      TableSwap(hash, t, b, c, x);
      TableLookup(hash, t, x);
    }
    forall x | x in m' ensures x in m {
      TableSwap(hash, t, b, c, x);
      TableLookup(hash, t, x);
    }
  }

  /** Replacing a key's chain by one without the key removes just that key from the stored map. */
  lemma TableRemove<K, V>(hash: K -> nat, t: seq<seq<(K, V)>>, c: seq<(K, V)>, k: K)
    requires |t| == TABLE_SIZE && Placed(hash, t) && Placed(hash, t[ModHash(hash, k) := c])
    requires MapOfPairs(c) == MapOfPairs(t[ModHash(hash, k)]) - {k}
    ensures TableMap(t[ModHash(hash, k) := c]) == TableMap(t) - {k}
  {
    var b := ModHash(hash, k);
    var m, m' := TableMap(t) - {k}, TableMap(t[b := c]);
    forall x | x in m ensures x in m' && m'[x] == m[x] {
      TableSwap(hash, t, b, c, x);
      TableLookup(hash, t, x);
    }
    forall x | x in m' ensures x in m {
      TableSwap(hash, t, b, c, x);
      TableLookup(hash, t, x);
    }
  }

  /** The number of entries is the number of stored keys. */
  lemma TableSize<K, V>(hash: K -> nat, t: seq<seq<(K, V)>>)
    requires Placed(hash, t)
    ensures |TableMap(t)| == |Flatten(t)|
  {
    FlattenDistinct(hash, t);
    MapOfPairsSize(Flatten(t));
  }

  // The three ways the map changes a chain

  /** The table of a new map: every bucket empty. */
  function EmptyTable<K, V>(): seq<seq<(K, V)>> {
    seq(TABLE_SIZE, _ => [])
  }

  /** `operator[]` on an absent key: the new entry becomes the tail of its bucket's chain. */
  function Appended<K, V>(hash: K -> nat, t: seq<seq<(K, V)>>, k: K, v: V): seq<seq<(K, V)>>
    requires |t| == TABLE_SIZE
  {
    t[ModHash(hash, k) := t[ModHash(hash, k)] + [(k, v)]]
  }

  /** `remove`: the node leaves its chain, the rest of the chain keeping its order. */
  function Unlinked<K, V>(t: seq<seq<(K, V)>>, i: nat, p: nat): seq<seq<(K, V)>>
    requires i < |t| && p < |t[i]|
  {
    t[i := t[i][..p] + t[i][p + 1..]]
  }

  /**
   * Where a cursor held across `remove` of the node at (i, p) now points:
   * the nodes after the removed one in its chain move one place down,
   * every other cursor stays.
   */
  function Reindexed(c: Cursor, i: nat, p: nat): Cursor {
    if c.Node? && c.bucket == i && c.pos > p then Node(i, c.pos - 1) else c
  }

  /**
   * Removal invalidates only the removed node: every other cursor, once
   * re-indexed, designates the same entry in the new table, and cursors
   * into other buckets and before the removed node keep their place.
   */
  lemma UnlinkedKeepsCursors<K, V>(t: seq<seq<(K, V)>>, i: nat, p: nat, c: Cursor)
    requires i < |t| && p < |t[i]| && IsCursor(t, c) && c != Node(i, p)
    ensures IsCursor(Unlinked(t, i, p), Reindexed(c, i, p))
    ensures c.Node? ==> Unlinked(t, i, p)[Reindexed(c, i, p).bucket][Reindexed(c, i, p).pos] == t[c.bucket][c.pos]
    ensures c.End? || c.bucket != i || c.pos < p ==> Reindexed(c, i, p) == c
    ensures c.Node? && c.bucket == i && p < c.pos ==> Reindexed(c, i, p) == Node(i, c.pos - 1)
  {
    if c.Node? && c.bucket == i {
      var u := t[i][..p] + t[i][p + 1..];
      if c.pos < p {
        assert u[c.pos] == t[i][c.pos];
      } else {
        assert u[c.pos - 1] == t[i][c.pos];
      }
    }
  }

  /** Assignment through the reference `operator[]` returns: the node keeps its key and gets `v`. */
  function Assigned<K, V>(t: seq<seq<(K, V)>>, i: nat, p: nat, v: V): seq<seq<(K, V)>>
    requires i < |t| && p < |t[i]|
  {
    t[i := t[i][p := (t[i][p].0, v)]]
  }

  lemma EmptyTableSpec<K, V>(hash: K -> nat)
    ensures |EmptyTable<K, V>()| == TABLE_SIZE && Placed(hash, EmptyTable<K, V>())
    ensures Flatten(EmptyTable<K, V>()) == [] && TableMap(EmptyTable<K, V>()) == map[]
  {
    FlattenEmpty(EmptyTable<K, V>());
  }

  /** Appending an absent key keeps the table placed, adds the key, and adds one entry. */
  lemma AppendedSpec<K, V>(hash: K -> nat, t: seq<seq<(K, V)>>, k: K, v: V)
    requires |t| == TABLE_SIZE && Placed(hash, t) && k !in TableMap(t)
    ensures Placed(hash, Appended(hash, t, k, v))
    ensures TableMap(Appended(hash, t, k, v)) == TableMap(t)[k := v]
    ensures |Flatten(Appended(hash, t, k, v))| == |Flatten(t)| + 1
  {
    var b := ModHash(hash, k);
    var c := t[b] + [(k, v)];
    TableKeys(hash, t, k);
    assert forall j | 0 <= j < |c| :: c[j] == if j < |t[b]| then t[b][j] else (k, v);
    assert Placed(hash, t[b := c]);
    assert c[..|c| - 1] == t[b];
    TableSet(hash, t, c, k, v);
    FlattenUpdateLength(t, b, c);
  }

  /** Unlinking a node keeps the table placed, drops its key, and drops one entry. */
  lemma UnlinkedSpec<K, V>(hash: K -> nat, t: seq<seq<(K, V)>>, i: nat, p: nat)
    requires |t| == TABLE_SIZE && Placed(hash, t) && i < |t| && p < |t[i]|
    ensures Placed(hash, Unlinked(t, i, p))
    ensures TableMap(Unlinked(t, i, p)) == TableMap(t) - {t[i][p].0}
    ensures |Flatten(Unlinked(t, i, p))| == |Flatten(t)| - 1
  {
    var k := t[i][p].0;
    var c := t[i][..p] + t[i][p + 1..];
    assert ModHash(hash, k) == i;
    MapOfPairsWithout(t[i], p);
    assert forall j | 0 <= j < |c| :: c[j] == if j < p then t[i][j] else t[i][j + 1];
    assert Placed(hash, t[i := c]);
    TableRemove(hash, t, c, k);
    FlattenUpdateLength(t, i, c);
  }

  /** Assigning through a node keeps the table placed, maps its key to `v`, and keeps the count. */
  lemma AssignedSpec<K, V>(hash: K -> nat, t: seq<seq<(K, V)>>, i: nat, p: nat, v: V)
    requires |t| == TABLE_SIZE && Placed(hash, t) && i < |t| && p < |t[i]|
    ensures Placed(hash, Assigned(t, i, p, v))
    ensures TableMap(Assigned(t, i, p, v)) == TableMap(t)[t[i][p].0 := v]
    ensures |Flatten(Assigned(t, i, p, v))| == |Flatten(t)|
  {
    var k := t[i][p].0;
    var c := t[i][p := (k, v)];
    assert ModHash(hash, k) == i;
    MapOfPairsWithout(t[i], p);
    assert c[..p] + c[p + 1..] == t[i][..p] + t[i][p + 1..];
    assert Placed(hash, t[i := c]);
    MapOfPairsWithout(c, p);
    TableSet(hash, t, c, k, v);
    FlattenUpdateLength(t, i, c);
  }

  /** `insert` on an absent key: the `mapped_type()` entry `operator[]` appends and then overwrites is `(k, v)`. */
  lemma AppendedThenAssigned<K, V>(hash: K -> nat, t: seq<seq<(K, V)>>, k: K, blank: V, v: V)
    requires |t| == TABLE_SIZE
    ensures var b := ModHash(hash, k);
      Assigned(Appended(hash, t, k, blank), b, |t[b]|, v) == Appended(hash, t, k, v)
  {
    var b := ModHash(hash, k);
    assert (t[b] + [(k, blank)])[|t[b]| := (k, v)] == t[b] + [(k, v)];
  }

  /** Inserting two absent keys in either order stores the same map. */
  lemma InsertionOrderSameMap<K, V>(hash: K -> nat, k1: K, v1: V, k2: K, v2: V)
    requires k1 != k2
    ensures TableMap(Appended(hash, Appended(hash, EmptyTable(), k1, v1), k2, v2))
         == TableMap(Appended(hash, Appended(hash, EmptyTable(), k2, v2), k1, v1))
  {
    var e: seq<seq<(K, V)>> := EmptyTable();
    EmptyTableSpec<K, V>(hash);
    AppendedSpec(hash, e, k1, v1);
    AppendedSpec(hash, Appended(hash, e, k1, v1), k2, v2);
    AppendedSpec(hash, e, k2, v2);
    AppendedSpec(hash, Appended(hash, e, k2, v2), k1, v1);
    UpdatesCommute(map[], k1, v1, k2, v2);
  }

  lemma UpdatesCommute<K, V>(m: map<K, V>, k1: K, v1: V, k2: K, v2: V)
    requires k1 != k2
    ensures m[k1 := v1][k2 := v2] == m[k2 := v2][k1 := v1]
  {
  }

  /**
   * Equal maps need not iterate alike: two keys of one bucket, inserted in
   * either order, give the same map (`InsertionOrderSameMap`) but opposite
   * chains. The map's `operator==` compares iteration order, so it tells
   * these two apart.
   */
  lemma InsertionOrderMatters<K, V>(hash: K -> nat, k1: K, v1: V, k2: K, v2: V)
    requires k1 != k2 && ModHash(hash, k1) == ModHash(hash, k2)
    ensures Flatten(Appended(hash, Appended(hash, EmptyTable(), k1, v1), k2, v2)) == [(k1, v1), (k2, v2)]
    ensures Flatten(Appended(hash, Appended(hash, EmptyTable(), k2, v2), k1, v1)) == [(k2, v2), (k1, v1)]
  {
    var e: seq<seq<(K, V)>> := EmptyTable();
    var b := ModHash(hash, k1);
    var t := Appended(hash, Appended(hash, e, k1, v1), k2, v2);
    var u := Appended(hash, Appended(hash, e, k2, v2), k1, v1);
    OnlyChain(t, b);
    OnlyChain(u, b);
  }

  /** A table with a single non-empty bucket iterates over that bucket's chain. */
  lemma OnlyChain<K, V>(t: seq<seq<(K, V)>>, b: nat)
    requires b < |t| && forall j | 0 <= j < |t| && j != b :: t[j] == []
    ensures Flatten(t) == t[b]
  {
    FlattenAround(t, b);
    var before, after := t[..b], t[b + 1..];
    FlattenEmpty(before);
    assert forall j | 0 <= j < |before| :: before[j] == t[j];
    FlattenEmpty(after);
    assert forall j | 0 <= j < |after| :: after[j] == t[b + 1 + j];
  }

  // Copying in iteration order

  /**
   * `t` is what copying `o` entry by entry in iteration order has built by
   * the time the iterator reaches bucket `i`, position `p`.
   */
  ghost predicate CopiedUpTo<K, V>(t: seq<seq<(K, V)>>, o: seq<seq<(K, V)>>, i: nat, p: nat) {
    && |t| == |o| && (i < |o| ==> p <= |o[i]|)
    && forall j | 0 <= j < |o| :: t[j] == if j < i then o[j] else if j == i then o[j][..p] else []
  }

  /** The copy is complete when the iterator is at the end. */
  ghost predicate Copied<K, V>(t: seq<seq<(K, V)>>, o: seq<seq<(K, V)>>, c: Cursor) {
    if c.End? then t == o else CopiedUpTo(t, o, c.bucket, c.pos)
  }

  /** An empty table is the copy made before iteration over `o` starts. */
  lemma CopyStart<K, V>(t: seq<seq<(K, V)>>, o: seq<seq<(K, V)>>, c: Cursor)
    requires |t| == |o| && (forall j | 0 <= j < |t| :: t[j] == []) && IsCursor(o, c) && Position(o, c) == 0
    ensures Copied(t, o, c)
  {
    if c.End? {
      FlattenEmpty(o);
    } else {
      FlattenEmpty(o[..c.bucket]);
      assert forall j | 0 <= j < c.bucket :: o[..c.bucket][j] == o[j];
    }
  }

  /** The entry the iterator is at is not yet in the copy. */
  lemma CopyFresh<K, V>(hash: K -> nat, t: seq<seq<(K, V)>>, o: seq<seq<(K, V)>>, c: Cursor)
    requires |o| == TABLE_SIZE && Placed(hash, o) && Placed(hash, t)
    requires IsCursor(o, c) && c.Node? && Copied(t, o, c)
    ensures o[c.bucket][c.pos].0 !in TableMap(t)
  {
    var k := o[c.bucket][c.pos].0;
    TableKeys(hash, t, k);
    assert ModHash(hash, k) == c.bucket;
    assert forall j | 0 <= j < c.pos :: t[c.bucket][j] == o[c.bucket][j];
  }

  /** Appending the current entry and moving the iterator on keeps the copy in step. */
  lemma CopyStep<K, V>(hash: K -> nat, t: seq<seq<(K, V)>>, o: seq<seq<(K, V)>>, c: Cursor, d: Cursor)
    requires |o| == TABLE_SIZE && Placed(hash, o)
    requires IsCursor(o, c) && c.Node? && Copied(t, o, c) && Follows(o, c, d)
    ensures Copied(Appended(hash, t, o[c.bucket][c.pos].0, o[c.bucket][c.pos].1), o, d)
  {
    var i, p := c.bucket, c.pos;
    var t' := Appended(hash, t, o[i][p].0, o[i][p].1);
    assert ModHash(hash, o[i][p].0) == i;
    assert o[i][..p] + [o[i][p]] == o[i][..p + 1];
    assert CopiedUpTo(t', o, i, p + 1);
    if p + 1 == |o[i]| {
      assert o[i][..p + 1] == o[i];
      if d.End? {
        assert forall j | 0 <= j < |o| :: t'[j] == o[j];
      }
    }
  }

  /** Every cursor is at most as far as the end. */
  lemma PositionBound<K, V>(t: seq<seq<(K, V)>>, c: Cursor)
    requires IsCursor(t, c)
    ensures Position(t, c) <= |Flatten(t)|
    ensures c.Node? ==> Position(t, c) < |Flatten(t)|
  {
    if c.Node? {
      PositionEntry(t, c);
    }
  }
}
