/**
 * HashMap: a fixed table of `TABLE_SIZE` buckets, each a chain of entries
 * linked through `next` and `prev`, in which a key lives in bucket
 * `hash(key) % TABLE_SIZE`.
 *
 * The bucket array is an `array` allocated once by each constructor; a
 * bucket holds its chain as a sequence from head to tail. The class keeps
 * the entry count in `counter`. `Valid()` is the invariant every public
 * operation keeps: every entry is in its key's bucket, no key occurs twice,
 * and `counter` is the number of entries. An iterator is a `Cursor`.
 */
module HashMaps {
  import opened PairMaps
  import opened HashChains
  import opened Results

  class HashMap<K(==), V(==)> {
    /** `std::hash` of the key type. */
    const hash: K -> nat
    /** `mapped_type()`, which `operator[]` stores for a new key. */
    const blank: V
    /** The bucket array; element `i` is the chain of bucket `i`, head first. */
    const hashtable: array<seq<(K, V)>>
    /** The number of entries. */
    var counter: nat

    ghost predicate Valid()
      reads this, hashtable
    {
      && hashtable.Length == TABLE_SIZE
      && Placed(hash, hashtable[..])
      && counter == |Flatten(hashtable[..])|
    }

    /** The chains, bucket by bucket. */
    ghost function Table(): seq<seq<(K, V)>>
      reads hashtable
    {
      hashtable[..]
    }

    /** The map the table stores. */
    ghost function Contents(): map<K, V>
      reads hashtable
    {
      TableMap(hashtable[..])
    }

    /** The entries in iteration order. */
    ghost function Order(): seq<(K, V)>
      reads hashtable
    {
      Flatten(hashtable[..])
    }

    /** A new, empty map: every bucket empty and no entries. */
    constructor (hash: K -> nat, blank: V)
      ensures Valid() && fresh(hashtable) && this.hash == hash && this.blank == blank
      ensures Table() == EmptyTable() && counter == 0 && Contents() == map[]
    {
      this.hash := hash;
      this.blank := blank;
      hashtable := new seq<(K, V)>[TABLE_SIZE];
      counter := 0;
      new;
      ClearBuckets();
    }

    /** The loop of the constructor and of `eraseHashMap`: every bucket becomes empty. */
    method ClearBuckets()
      requires hashtable.Length == TABLE_SIZE
      modifies hashtable
      ensures Table() == EmptyTable()
      ensures Placed(hash, Table()) && Flatten(Table()) == [] && Contents() == map[]
    {
      for i := 0 to TABLE_SIZE
        invariant forall j | 0 <= j < i :: hashtable[j] == []
      {
        hashtable[i] := [];
      }
      assert hashtable[..] == EmptyTable();
      EmptyTableSpec<K, V>(hash);
    }

    /**
     * `findNode`: walks the chain of the key's bucket from its head and
     * stops at the node holding the key, or runs off the tail (`NIL`).
     */
    method FindNode(k: K) returns (pos: int)
      requires Valid()
      ensures NIL <= pos < |hashtable[ModHash(hash, k)]|
      ensures pos == NIL <==> k !in Contents()
      ensures pos != NIL ==> hashtable[ModHash(hash, k)][pos] == (k, Contents()[k])
    {
      var b := ModHash(hash, k);
      pos := 0;
      while pos < |hashtable[b]|
        invariant 0 <= pos <= |hashtable[b]|
        invariant forall j | 0 <= j < pos :: hashtable[b][j].0 != k
      {
        if hashtable[b][pos].0 == k {
          TableEntry(hash, hashtable[..], b, pos);
          return;
        }
        pos := pos + 1;
      }
      TableKeys(hash, hashtable[..], k);
      pos := NIL;
    }

    /**
     * `operator[]`: the node holding the key, after appending a node with
     * `mapped_type()` at the tail of the key's bucket when there is none.
     */
    method Index(k: K) returns (c: Cursor)
      requires Valid()
      modifies this, hashtable
      ensures Valid()
      ensures k in old(Contents()) ==> Table() == old(Table()) && counter == old(counter)
      ensures k !in old(Contents()) ==> Table() == Appended(hash, old(Table()), k, blank) && counter == old(counter) + 1
      ensures k !in old(Contents()) ==> Contents() == old(Contents())[k := blank]
      ensures c.Node? && c.bucket == ModHash(hash, k) && IsCursor(Table(), c)
      ensures k !in old(Contents()) ==> c.pos == |old(Table())[c.bucket]|
      ensures k in Contents() && hashtable[c.bucket][c.pos] == (k, Contents()[k])
    {
      var b := ModHash(hash, k);
      var pos := FindNode(k);
      if pos == NIL {
        ghost var t := hashtable[..];
        AppendedSpec(hash, t, k, blank);
        counter := counter + 1;
        pos := |hashtable[b]|;
        hashtable[b] := hashtable[b] + [(k, blank)];
        assert hashtable[..] == Appended(hash, t, k, blank);
      }
      c := Node(b, pos);
    }

    /** Assignment through the reference `operator[]` returns: the node's value becomes `v`. */
    method SetValue(c: Cursor, v: V)
      requires Valid() && c.Node? && IsCursor(Table(), c)
      modifies hashtable
      ensures Valid()
      ensures Table() == Assigned(old(Table()), c.bucket, c.pos, v)
      ensures Contents() == old(Contents())[old(Table())[c.bucket][c.pos].0 := v]
    {
      ghost var t := hashtable[..];
      AssignedSpec(hash, t, c.bucket, c.pos, v);
      hashtable[c.bucket] := hashtable[c.bucket][c.pos := (hashtable[c.bucket][c.pos].0, v)];
      assert hashtable[..] == Assigned(t, c.bucket, c.pos, v);
    }

    /** `insert`: `operator[](k) = v`. */
    method Insert(k: K, v: V)
      requires Valid()
      modifies this, hashtable
      ensures Valid()
      ensures Contents() == old(Contents())[k := v]
      ensures k in old(Contents()) ==> counter == old(counter)
      ensures k in old(Contents()) ==>
        exists p | 0 <= p < |old(Table())[ModHash(hash, k)]| && old(Table())[ModHash(hash, k)][p].0 == k ::
          Table() == Assigned(old(Table()), ModHash(hash, k), p, v)
      ensures k !in old(Contents()) ==> Table() == Appended(hash, old(Table()), k, v) && counter == old(counter) + 1
    {
      ghost var t: seq<seq<(K, V)>> := Table();
      var c := Index(k);
      SetValue(c, v);
      if k in TableMap(t) {
        assert t[c.bucket][c.pos].0 == k && Table() == Assigned(t, c.bucket, c.pos, v);
      } else {
        AppendedThenAssigned(hash, t, k, blank, v);
        AppendedSpec(hash, t, k, v);
      }
    }

    /** `valueOf`: the key's value, or out_of_range when the key is absent. */
    method ValueOf(k: K) returns (r: Result<V>)
      requires Valid()
      ensures r.Ok? <==> k in Contents()
      ensures r.Ok? ==> r.value == Contents()[k]
    {
      var pos := FindNode(k);
      if pos == NIL {
        return OutOfRange;
      }
      r := Ok(hashtable[ModHash(hash, k)][pos].1);
    }

    /**
     * `find`: an iterator at the key's node, or `end()` when it is absent
     * (an iterator built on a null node gets the end's bucket index).
     */
    method Find(k: K) returns (c: Cursor)
      requires Valid()
      ensures IsCursor(Table(), c)
      ensures c == End <==> k !in Contents()
      ensures c.Node? ==> c.bucket == ModHash(hash, k) && Table()[c.bucket][c.pos] == (k, Contents()[k])
    {
      var pos := FindNode(k);
      c := if pos == NIL then End else Node(ModHash(hash, k), pos);
    }

    /**
     * `remove(const_iterator&)`: out_of_range at the end; otherwise the node
     * leaves its chain, relinked the way a doubly linked list unlink does it.
     * The source's own relinking differs in both cases: it leaves a new head's
     * back link pointing at itself, and a predecessor's forward link pointing
     * at itself (see `HashFindings`).
     */
    method Remove(c: Cursor) returns (r: Result<()>)
      requires Valid() && IsCursor(Table(), c)
      modifies this, hashtable
      ensures Valid()
      ensures c.End? ==> r == OutOfRange && Table() == old(Table()) && counter == old(counter)
      ensures c.Node? ==> r == Ok(()) && Table() == Unlinked(old(Table()), c.bucket, c.pos)
      ensures c.Node? ==> Contents() == old(Contents()) - {old(Table())[c.bucket][c.pos].0}
      ensures c.Node? ==> counter == old(counter) - 1
    {
      if c == End {
        return OutOfRange;
      }
      ghost var t := hashtable[..];
      UnlinkedSpec(hash, t, c.bucket, c.pos);
      hashtable[c.bucket] := hashtable[c.bucket][..c.pos] + hashtable[c.bucket][c.pos + 1..];
      assert hashtable[..] == Unlinked(t, c.bucket, c.pos);
      counter := counter - 1;
      r := Ok(());
    }

    /** `remove(key)`: `remove(find(key))`. */
    method RemoveKey(k: K) returns (r: Result<()>)
      requires Valid()
      modifies this, hashtable
      ensures Valid()
      ensures k !in old(Contents()) ==> r == OutOfRange && Table() == old(Table()) && counter == old(counter)
      ensures k in old(Contents()) ==> r == Ok(()) && Contents() == old(Contents()) - {k}
      ensures k in old(Contents()) ==> counter == old(counter) - 1
    {
      var c := Find(k);
      r := Remove(c);
    }

    /** `getSize`: the count, which is the number of stored keys. */
    method GetSize() returns (size: nat)
      requires Valid()
      ensures size == |Contents()| && size == |Order()|
    {
      TableSize(hash, hashtable[..]);
      size := counter;
    }

    /** `isEmpty`: the count is zero. */
    method IsEmpty() returns (b: bool)
      requires Valid()
      ensures b <==> Contents() == map[]
      ensures b <==> Order() == []
    {
      TableSize(hash, hashtable[..]);
      b := counter == 0;
    }

    /** `eraseHashMap`: unless the map is already empty, every bucket is emptied; the count becomes 0. */
    method EraseHashMap()
      requires Valid()
      modifies this, hashtable
      ensures Valid() && Table() == EmptyTable() && counter == 0 && Contents() == map[]
    {
      if counter != 0 {
        ClearBuckets();
      } else {
        FlattenEmpty(hashtable[..]);
        assert hashtable[..] == EmptyTable();
        EmptyTableSpec<K, V>(hash);
      }
      counter := 0;
    }

    /** `firstNode`: the lowest non-empty bucket, or `TABLE_SIZE` when there is none. */
    method FirstNode() returns (index: nat)
      requires Valid()
      ensures index <= TABLE_SIZE
      ensures forall j | 0 <= j < index :: hashtable[j] == []
      ensures index < TABLE_SIZE ==> hashtable[index] != []
    {
      index := 0;
      while index < TABLE_SIZE && hashtable[index] == []
        invariant index <= TABLE_SIZE
        invariant forall j | 0 <= j < index :: hashtable[j] == []
      {
        index := index + 1;
      }
    }

    /** `begin`: the head of the first non-empty bucket, or `end()`; iteration starts here. */
    method Begin() returns (c: Cursor)
      requires Valid()
      ensures IsCursor(Table(), c) && Position(Table(), c) == 0
      ensures c == End <==> Contents() == map[]
    {
      TableSize(hash, hashtable[..]);
      var first := FirstNode();
      if first == TABLE_SIZE {
        FlattenEmpty(hashtable[..]);
        return End;
      }
      c := Node(first, 0);
      FlattenEmpty(hashtable[..][..first]);
      PositionEntry(Table(), c);
    }

    /** `operator*`: the entry at the iterator; out_of_range at the end. */
    method Deref(c: Cursor) returns (r: Result<(K, V)>)
      requires Valid() && IsCursor(Table(), c)
      ensures c.End? <==> r == OutOfRange
      ensures r.Ok? ==> r.value == Table()[c.bucket][c.pos]
      ensures r.Ok? ==> Position(Table(), c) < |Order()| && r.value == Order()[Position(Table(), c)]
      ensures r.Ok? ==> r.value.0 in Contents() && Contents()[r.value.0] == r.value.1
    {
      if c.End? {
        return OutOfRange;
      }
      PositionEntry(Table(), c);
      TableEntry(hash, Table(), c.bucket, c.pos);
      r := Ok(hashtable[c.bucket][c.pos]);
    }

    /**
     * `operator++`: out_of_range at the end; otherwise the next node of the
     * chain, or the head of the next non-empty bucket, or the end.
     */
    method Next(c: Cursor) returns (r: Result<Cursor>)
      requires Valid() && IsCursor(Table(), c)
      ensures c.End? <==> r == OutOfRange
      ensures r.Ok? ==> c.Node? && Follows(Table(), c, r.value)
      ensures r.Ok? ==> IsCursor(Table(), r.value) && Position(Table(), r.value) == Position(Table(), c) + 1
    {
      if c.End? {
        return OutOfRange;
      }
      if c.pos + 1 < |hashtable[c.bucket]| {
        r := Ok(Node(c.bucket, c.pos + 1));
      } else {
        var index := c.bucket + 1;
        while index < TABLE_SIZE && hashtable[index] == []
          invariant c.bucket < index <= TABLE_SIZE
          invariant forall j | c.bucket < j < index :: hashtable[j] == []
        {
          index := index + 1;
        }
        r := if index < TABLE_SIZE then Ok(Node(index, 0)) else Ok(End);
      }
      FollowsPosition(Table(), c, r.value);
    }

    /**
     * `operator--`: the previous node of the chain; from a chain head or the
     * end, the tail of the nearest earlier non-empty bucket; out_of_range
     * when there is none, that is, exactly when iteration starts at `c`.
     */
    method Prev(c: Cursor) returns (r: Result<Cursor>)
      requires Valid() && IsCursor(Table(), c)
      ensures r == OutOfRange <==> Position(Table(), c) == 0
      ensures r.Ok? ==> Precedes(Table(), c, r.value)
      ensures r.Ok? ==> IsCursor(Table(), r.value) && Position(Table(), r.value) + 1 == Position(Table(), c)
    {
      if c.Node? && c.pos > 0 {
        r := Ok(Node(c.bucket, c.pos - 1));
        PrecedesPosition(Table(), c, r.value);
        return;
      }
      var start := if c.End? then TABLE_SIZE else c.bucket;
      if start == 0 {
        NoneBeforePosition(Table(), c);
        return OutOfRange;
      }
      var index := start - 1;
      while hashtable[index] == [] && index > 0
        invariant 0 <= index < start
        invariant forall j | index < j < start :: hashtable[j] == []
      {
        index := index - 1;
      }
      if index == 0 && hashtable[index] == [] {
        NoneBeforePosition(Table(), c);
        return OutOfRange;
      }
      var pos := 0;
      while pos + 1 < |hashtable[index]|
        invariant pos < |hashtable[index]|
      {
        pos := pos + 1;
      }
      r := Ok(Node(index, pos));
      PrecedesPosition(Table(), c, r.value);
    }

    /**
     * `operator==`: maps of different sizes differ; otherwise both are
     * iterated side by side and compared entry by entry, so the result
     * depends on the order of the chains (`InsertionOrderMatters`).
     */
    method Equals(other: HashMap<K, V>) returns (b: bool)
      requires Valid() && other.Valid()
      ensures b <==> Order() == other.Order()
      ensures b ==> Contents() == other.Contents()
    {
      if other.counter != counter {
        return false;
      }
      b := SameOrder(other);
    }

    /** `*it` followed by `++it` on a non-end iterator: the entry at iteration position `i`, and the iterator at `i + 1`. */
    method Step(c: Cursor) returns (p: (K, V), next: Cursor)
      requires Valid() && IsCursor(Table(), c) && c.Node?
      ensures Position(Table(), c) < |Order()| && p == Order()[Position(Table(), c)]
      ensures IsCursor(Table(), next) && Position(Table(), next) == Position(Table(), c) + 1
    {
      var r := Deref(c);
      var n := Next(c);
      p, next := r.value, n.value;
    }

    /** The side-by-side traversal of `operator==`, for maps of one size. */
    method SameOrder(other: HashMap<K, V>) returns (b: bool)
      requires Valid() && other.Valid() && |Order()| == |other.Order()|
      ensures b <==> Order() == other.Order()
    {
      ghost var t1, t2 := Table(), other.Table();
      ghost var f1, f2 := Order(), other.Order();
      var it2 := other.Begin();
      var it1 := Begin();
      ghost var i := 0;
      while it1 != End
        invariant IsCursor(t1, it1) && IsCursor(t2, it2)
        invariant i == Position(t1, it1) == Position(t2, it2) <= |f1|
        invariant forall j | 0 <= j < i :: f1[j] == f2[j]
        decreases |f1| - i
      {
        PositionBound(t2, it2);
        var p1, n1 := Step(it1);
        var p2, n2 := other.Step(it2);
        if p1 != p2 {
          return false;
        }
        it1, it2 := n1, n2;
        i := i + 1;
      }
      assert f1 == f2;
      return true;
    }

    /**
     * The loop shared by the copy and move operations: every entry of
     * `other`, in iteration order, goes through `operator[]` into this
     * empty map, which rebuilds `other`'s chains exactly.
     */
    method CopyFrom(other: HashMap<K, V>)
      requires Valid() && other.Valid() && other.hashtable != hashtable && other.hash == hash
      requires Table() == EmptyTable()
      modifies this, hashtable
      ensures Valid() && Table() == other.Table() && counter == other.counter
    {
      var it := other.Begin();
      assert forall j | 0 <= j < TABLE_SIZE :: hashtable[j] == [];
      CopyStart(hashtable[..], other.Table(), it);
      CopyRest(other, it);
    }

    /** The copy loop from `it` on, given that the entries before `it` are already copied. */
    method CopyRest(other: HashMap<K, V>, it: Cursor)
      requires Valid() && other.Valid() && other.hashtable != hashtable && other.hash == hash
      requires IsCursor(other.Table(), it) && Copied(Table(), other.Table(), it)
      modifies this, hashtable
      ensures Valid() && Table() == other.Table() && counter == other.counter
    {
      ghost var o := other.Table();
      ghost var size := |other.Order()|;
      var cur := it;
      PositionBound(o, cur);
      while cur != End
        invariant Valid() && other.Valid() && other.Table() == o
        invariant IsCursor(o, cur) && Copied(Table(), o, cur) && Position(o, cur) <= size
        decreases size - Position(o, cur)
      {
        cur := CopyEntry(other, cur);
      }
    }

    /** One round of the copy loop: the entry at `it` is inserted and `it` advances. */
    method CopyEntry(other: HashMap<K, V>, it: Cursor) returns (next: Cursor)
      requires Valid() && other.Valid() && other.hashtable != hashtable && other.hash == hash
      requires IsCursor(other.Table(), it) && it.Node? && Copied(Table(), other.Table(), it)
      modifies this, hashtable
      ensures Valid() && IsCursor(other.Table(), next) && Copied(Table(), other.Table(), next)
      ensures Position(other.Table(), next) == Position(other.Table(), it) + 1 <= |other.Order()|
    {
      ghost var o := other.Table();
      ghost var t := Table();
      var p := other.Deref(it);
      CopyFresh(hash, t, o, it);
      Insert(p.value.0, p.value.1);
      var n := other.Next(it);
      CopyStep(hash, t, o, it, n.value);
      next := n.value;
      PositionBound(o, next);
    }

    /** The copy constructor: an independent map with `other`'s chains. */
    constructor Copy(other: HashMap<K, V>)
      requires other.Valid()
      ensures Valid() && fresh(hashtable) && hash == other.hash && blank == other.blank
      ensures Table() == other.Table() && counter == other.counter && Contents() == other.Contents()
    {
      hash := other.hash;
      blank := other.blank;
      hashtable := new seq<(K, V)>[TABLE_SIZE];
      counter := 0;
      new;
      ClearBuckets();
      CopyFrom(other);
    }

    /** The move constructor: copies `other`'s entries in, then erases `other`. */
    constructor Move(other: HashMap<K, V>)
      requires other.Valid()
      modifies other, other.hashtable
      ensures Valid() && fresh(hashtable) && hash == other.hash && blank == other.blank
      ensures Table() == old(other.Table()) && counter == old(other.counter) && Contents() == old(other.Contents())
      ensures other.Valid() && other.Table() == EmptyTable() && other.counter == 0 && other.Contents() == map[]
    {
      hash := other.hash;
      blank := other.blank;
      hashtable := new seq<(K, V)>[TABLE_SIZE];
      counter := 0;
      new;
      ClearBuckets();
      CopyFrom(other);
      other.EraseHashMap();
    }

    /** Copy assignment: unless `other` is this map, erase this map and copy `other`'s entries in. */
    method CopyAssign(other: HashMap<K, V>)
      requires Valid() && other.Valid() && other.hash == hash
      requires other != this ==> other.hashtable != hashtable
      modifies this, hashtable
      ensures Valid() && Table() == old(other.Table()) && counter == old(other.counter)
      ensures Contents() == old(other.Contents())
    {
      if this != other {
        EraseHashMap();
        CopyFrom(other);
      }
    }

    /** Move assignment: unless `other` is this map, erase this map, copy `other`'s entries in and erase `other`. */
    method MoveAssign(other: HashMap<K, V>)
      requires Valid() && other.Valid() && other.hash == hash
      requires other != this ==> other.hashtable != hashtable
      modifies this, hashtable, other, other.hashtable
      ensures Valid() && other.Valid()
      ensures Table() == old(other.Table()) && counter == old(other.counter) && Contents() == old(other.Contents())
      ensures other != this ==> other.Table() == EmptyTable() && other.counter == 0 && other.Contents() == map[]
    {
      if this != other {
        EraseHashMap();
        CopyFrom(other);
        other.EraseHashMap();
      }
    }
  }
}
