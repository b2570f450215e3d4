/**
 * Sequences of key/value pairs read as maps. Both containers hand out their
 * entries as such a sequence when iterated; `MapOfPairs` is the map those
 * entries denote.
 */
module PairMaps {

  /** Builds a map from pairs; a later pair for the same key wins. */
  function MapOfPairs<K, V>(s: seq<(K, V)>): map<K, V> {
    if s == [] then map[] else MapOfPairs(s[..|s| - 1])[s[|s| - 1].0 := s[|s| - 1].1]
  }

  /** The pairs of a concatenation override those of its first part. */
  lemma {:induction false} MapOfPairsAppend<K, V>(a: seq<(K, V)>, b: seq<(K, V)>)
    ensures MapOfPairs(a + b) == MapOfPairs(a) + MapOfPairs(b)
    decreases |b|
  {
    if b != [] {
      var b' := b[..|b| - 1];
      assert (a + b)[..|a + b| - 1] == a + b';
      MapOfPairsAppend(a, b');
    } else {
      assert a + b == a;
    }
  }

  /** The keys of the map are exactly the keys that occur in the pairs. */
  lemma {:induction false} MapOfPairsKeys<K, V>(s: seq<(K, V)>)
    ensures forall x :: x in MapOfPairs(s) <==> exists j :: 0 <= j < |s| && s[j].0 == x
  {
    if s != [] {
      var s' := s[..|s| - 1];
      MapOfPairsKeys(s');
      forall x ensures x in MapOfPairs(s) <==> exists j :: 0 <= j < |s| && s[j].0 == x {
        if x in MapOfPairs(s') {
          var j :| 0 <= j < |s'| && s'[j].0 == x;
          assert s[j].0 == x;
        }
        if exists j :: 0 <= j < |s| && s[j].0 == x {
          var j :| 0 <= j < |s| && s[j].0 == x;
          if j < |s'| { assert s'[j].0 == x; }
        }
      }
    }
  }

  lemma MapOfPairsMiddle<K, V>(a: seq<(K, V)>, x: (K, V), b: seq<(K, V)>)
    ensures MapOfPairs(a + [x] + b) == MapOfPairs(a)[x.0 := x.1] + MapOfPairs(b)
  {
    MapOfPairsAppend(a + [x], b);
    assert (a + [x])[..|a + [x]| - 1] == a;
  }

  /** No key occurs twice. */
  ghost predicate DistinctKeys<K, V>(s: seq<(K, V)>) {
    forall a, b | 0 <= a < b < |s| :: s[a].0 != s[b].0
  }

  /**
   * With distinct keys, the pair at position `j` is the map's entry for its
   * key, and dropping that pair drops exactly that key.
   */
  lemma MapOfPairsWithout<K, V>(s: seq<(K, V)>, j: nat)
    requires DistinctKeys(s) && j < |s|
    ensures s[j].0 !in MapOfPairs(s[..j] + s[j + 1..])
    ensures MapOfPairs(s) == MapOfPairs(s[..j] + s[j + 1..])[s[j].0 := s[j].1]
  {
    var a, b, k := s[..j], s[j + 1..], s[j].0;
    assert k !in MapOfPairs(a) by {
      MapOfPairsKeys(a);
      assert forall i | 0 <= i < |a| :: a[i] == s[i];
    }
    assert k !in MapOfPairs(b) by {
      MapOfPairsKeys(b);
      assert forall i | 0 <= i < |b| :: b[i] == s[j + 1 + i];
    }
    assert s == a + [s[j]] + b;
    MapOfPairsMiddle(a, s[j], b);
    MapOfPairsAppend(a, b);
    UpdateBeforeUnion(MapOfPairs(a), MapOfPairs(b), k, s[j].1);
  }

  /** An update survives a union with a map that lacks its key. */
  lemma UpdateBeforeUnion<K, V>(m: map<K, V>, n: map<K, V>, k: K, v: V)
    requires k !in n
    ensures m[k := v] + n == (m + n)[k := v]
  {
  }

  /** With distinct keys, the map has one entry per pair. */
  lemma {:induction false} MapOfPairsSize<K, V>(s: seq<(K, V)>)
    requires DistinctKeys(s)
    ensures |MapOfPairs(s)| == |s|
    decreases |s|
  {
    if s != [] {
      var n := |s| - 1;
      MapOfPairsWithout(s, n);
      assert s[..n] + s[n + 1..] == s[..n];
      assert DistinctKeys(s[..n]) by {
        assert forall i | 0 <= i < n :: s[..n][i] == s[i];
      }
      MapOfPairsSize(s[..n]);
      assert MapOfPairs(s).Keys == MapOfPairs(s[..n]).Keys + {s[n].0};
    }
  }
}
