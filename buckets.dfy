/** The bucket table of a separate-chaining hash map, as a value.

    A table is a sequence of buckets; a bucket is a sequence of key/value
    pairs in insertion order. The functions here are the specification that
    the class `GenericHashMap` (module HashMap) is proved against: where a
    key must live, how a lookup, an insertion or a removal changes the table,
    the order in which an iteration visits the pairs, and the abstract map
    (`AsMap`) that the table represents. */
module Buckets {
  import opened Wrappers

  /** One key/value association (a `GenericPair` in the Java code). */
  datatype Pair<K, V> = Pair(key: K, value: V)

  type Bucket<K, V> = seq<Pair<K, V>>

  type Table<K, V> = seq<Bucket<K, V>>

  // ----------------------------------------------------------------------
  // Bucket index
  // ----------------------------------------------------------------------

  /** Java's `%` on `int`: the quotient truncates toward zero, so the
      remainder takes the sign of the dividend and differs from it by a
      multiple of the divisor. This is the operator the
      Java code applies to `hashCode()`. */
  function JavaRemainder(a: int, n: int): (r: int)
    requires n > 0
    ensures -n < r < n
    ensures a >= 0 ==> 0 <= r
    ensures a <= 0 ==> r <= 0
    ensures exists q :: a == q * n + r
  {
    if a >= 0 then
      assert a == (a / n) * n + a % n;
      a % n
    else
      assert -a == ((-a) / n) * n + (-a) % n;
      assert a == (-((-a) / n)) * n + -((-a) % n);
      -((-a) % n)
  }

  /** With the Java operator a negative hash code that is not a multiple of
      the capacity selects a negative bucket index, which the bucket list
      then rejects with an out-of-bounds fault. */
  lemma NegativeHashSelectsNoBucket(h: int, capacity: int)
    requires capacity > 0 && h < 0 && (-h) % capacity != 0
    ensures JavaRemainder(h, capacity) < 0
  {
  }

  /** The bucket a hash value selects: floor modulo, always a valid index.
      It agrees with Java's `%` on every non-negative hash. */
  function BucketIndex(h: int, capacity: int): (b: int)
    requires capacity > 0
    ensures 0 <= b < capacity
    ensures h >= 0 ==> b == JavaRemainder(h, capacity)
  {
    h % capacity
  }

  // ----------------------------------------------------------------------
  // Searching one bucket
  // ----------------------------------------------------------------------

  /** No key occurs twice in `ps`. */
  ghost predicate KeysDistinct<K, V>(ps: Bucket<K, V>)
  {
    forall i, j :: 0 <= i < j < |ps| ==> ps[i].key != ps[j].key
  }

  /** Position of the first pair with key `k`, or -1 when there is none. */
  function IndexOfKey<K(==), V>(ps: Bucket<K, V>, k: K): (r: int)
    ensures -1 <= r < |ps|
    ensures 0 <= r ==> ps[r].key == k && forall j :: 0 <= j < r ==> ps[j].key != k
    ensures r < 0 ==> forall j :: 0 <= j < |ps| ==> ps[j].key != k
  {
    if |ps| == 0 then -1
    else if ps[0].key == k then 0
    else
      var r := IndexOfKey(ps[1..], k);
      if r < 0 then -1 else r + 1
  }

  /** The value stored for `k` in one bucket, if any. */
  function Lookup<K(==), V>(ps: Bucket<K, V>, k: K): (r: Option<V>)
    ensures r.Some? <==> exists p :: p in ps && p.key == k
    ensures KeysDistinct(ps) ==> forall p :: p in ps && p.key == k ==> r == Some(p.value)
  {
    var i := IndexOfKey(ps, k);
    if i < 0 then None else Some(ps[i].value)
  }

  /** Map lookup with an explicit absent case. */
  function MapGet<K, V>(m: map<K, V>, k: K): Option<V>
  {
    if k in m then Some(m[k]) else None
  }

  /** Two maps that answer every lookup alike are equal. */
  lemma MapGetExtensional<K, V>(m1: map<K, V>, m2: map<K, V>)
    requires forall k :: MapGet(m1, k) == MapGet(m2, k)
    ensures m1 == m2
  {
    assert forall k :: k in m1 <==> k in m2 by {
      forall k ensures k in m1 <==> k in m2 {
        assert MapGet(m1, k) == MapGet(m2, k);
      }
    }
    forall k | k in m1 ensures m1[k] == m2[k] {
      assert MapGet(m1, k) == MapGet(m2, k);
    }
  }

  // ----------------------------------------------------------------------
  // The whole table: iteration order and the abstract map
  // ----------------------------------------------------------------------

  /** Sum of the bucket lengths. */
  function TotalLength<K, V>(bs: Table<K, V>): nat
  {
    if |bs| == 0 then 0 else |bs[0]| + TotalLength(bs[1..])
  }

  /** All pairs, bucket by bucket in index order and in list order within a
      bucket: the order in which an entry iterator yields them. */
  function Flatten<K, V>(bs: Table<K, V>): (r: Bucket<K, V>)
    ensures |r| == TotalLength(bs)
  {
    if |bs| == 0 then [] else bs[0] + Flatten(bs[1..])
  }

  /** A pair is yielded by the iteration exactly when some bucket holds it. */
  lemma {:induction false} InFlatten<K, V>(bs: Table<K, V>, p: Pair<K, V>)
    ensures p in Flatten(bs) <==> exists b :: 0 <= b < |bs| && p in bs[b]
  {
    if |bs| > 0 {
      InFlatten(bs[1..], p);
      if p in Flatten(bs[1..]) {
        var b :| 0 <= b < |bs[1..]| && p in bs[1..][b];
        assert p in bs[b + 1];
      }
      if exists b :: 0 <= b < |bs| && p in bs[b] {
        var b :| 0 <= b < |bs| && p in bs[b];
        if b > 0 {
          assert p in bs[1..][b - 1];
        }
      }
    }
  }

  /** The map a sequence of pairs describes; a later pair overrides an
      earlier one with the same key. */
  function MapOf<K(==), V>(ps: Bucket<K, V>): map<K, V>
  {
    if |ps| == 0 then map[]
    else
      var last := ps[|ps| - 1];
      MapOf(ps[..|ps| - 1])[last.key := last.value]
  }

  /** The keys of the map are the keys of the pairs. */
  lemma {:induction false} MapOfKey<K, V>(ps: Bucket<K, V>, k: K)
    ensures k in MapOf(ps) <==> exists p :: p in ps && p.key == k
  {
    if |ps| > 0 {
      var init := ps[..|ps| - 1];
      MapOfKey(init, k);
      assert ps == init + [ps[|ps| - 1]];
    }
  }

  /** Every entry of the map is one of the pairs. */
  lemma {:induction false} MapOfPair<K, V>(ps: Bucket<K, V>, k: K)
    requires k in MapOf(ps)
    ensures Pair(k, MapOf(ps)[k]) in ps
  {
    var init := ps[..|ps| - 1];
    var last := ps[|ps| - 1];
    assert ps == init + [last];
    if k != last.key {
      MapOfPair(init, k);
    }
  }

  /** With distinct keys every pair is an entry of the map. */
  lemma MapOfValue<K, V>(ps: Bucket<K, V>, p: Pair<K, V>)
    requires KeysDistinct(ps) && p in ps
    ensures p.key in MapOf(ps) && MapOf(ps)[p.key] == p.value
  {
    var m := MapOf(ps);
    MapOfKey(ps, p.key);
    MapOfPair(ps, p.key);
    var q := Pair(p.key, m[p.key]);
    var i :| 0 <= i < |ps| && ps[i] == p;
    var j :| 0 <= j < |ps| && ps[j] == q;
    assert i == j;
  }

  /** With distinct keys the map has one entry per pair. */
  lemma {:induction false} MapOfSize<K, V>(ps: Bucket<K, V>)
    requires KeysDistinct(ps)
    ensures |MapOf(ps)| == |ps|
  {
    if |ps| > 0 {
      var init := ps[..|ps| - 1];
      var last := ps[|ps| - 1];
      assert KeysDistinct(init);
      MapOfSize(init);
      MapOfKey(init, last.key);
      assert last.key !in MapOf(init);
    }
  }

  /** With distinct keys the values of the map are the values of the pairs. */
  lemma MapOfValues<K, V>(ps: Bucket<K, V>, v: V)
    requires KeysDistinct(ps)
    ensures v in MapOf(ps).Values <==> exists p :: p in ps && p.value == v
  {
    var m := MapOf(ps);
    if v in m.Values {
      var k :| k in m && m[k] == v;
      MapOfPair(ps, k);
    }
    if exists p :: p in ps && p.value == v {
      var p :| p in ps && p.value == v;
      MapOfValue(ps, p);
      assert m[p.key] == v;
    }
  }

  /** The abstract map a table represents: the map of its iteration. */
  function AsMap<K(==), V>(bs: Table<K, V>): map<K, V>
  {
    MapOf(Flatten(bs))
  }

  // ----------------------------------------------------------------------
  // The table invariant
  // ----------------------------------------------------------------------

  /** At least one bucket; no key twice in a bucket; every pair in the
      bucket its key's hash selects. */
  ghost predicate WellFormed<K, V>(bs: Table<K, V>, hash: K -> int)
  {
    && |bs| > 0
    && (forall b :: 0 <= b < |bs| ==> KeysDistinct(bs[b]))
    && (forall b, p :: 0 <= b < |bs| && p in bs[b] ==> BucketIndex(hash(p.key), |bs|) == b)
  }

  /** No key in two different buckets, none twice in one. */
  ghost predicate Separated<K, V>(bs: Table<K, V>)
  {
    && (forall b :: 0 <= b < |bs| ==> KeysDistinct(bs[b]))
    && (forall b1, b2, p, q :: 0 <= b1 < b2 < |bs| && p in bs[b1] && q in bs[b2] ==> p.key != q.key)
  }

  lemma {:induction false} SeparatedEntriesDistinct<K, V>(bs: Table<K, V>)
    requires Separated(bs)
    ensures KeysDistinct(Flatten(bs))
  {
    if |bs| > 0 {
      var rest := bs[1..];
      assert Separated(rest) by {
        forall b1: int, b2: int, p: Pair<K, V>, q: Pair<K, V> | 0 <= b1 < b2 < |rest| && p in rest[b1] && q in rest[b2]
          ensures p.key != q.key
        {
          assert p in bs[b1 + 1] && q in bs[b2 + 1];
        }
      }
      SeparatedEntriesDistinct(rest);
      var a: Bucket<K, V>, c: Bucket<K, V> := bs[0], Flatten(rest);
      forall i: int, j: int | 0 <= i < j < |a + c| ensures (a + c)[i].key != (a + c)[j].key {
        if i < |a| && |a| <= j {
          var q := c[j - |a|];
          assert (a + c)[j] == q && q in c;
          InFlatten(rest, q);
          var b :| 0 <= b < |rest| && q in rest[b];
          assert q in bs[b + 1];
          assert (a + c)[i] in bs[0];
        }
      }
    }
  }

  /** Under the invariant no key occurs twice in the whole table. */
  lemma EntriesKeysDistinct<K, V>(bs: Table<K, V>, hash: K -> int)
    requires WellFormed(bs, hash)
    ensures KeysDistinct(Flatten(bs))
  {
    SeparatedEntriesDistinct(bs);
  }

  /** Under the invariant the number of pairs is the number of keys. */
  lemma ContentsSize<K, V>(bs: Table<K, V>, hash: K -> int)
    requires WellFormed(bs, hash)
    ensures |AsMap(bs)| == TotalLength(bs)
  {
    EntriesKeysDistinct(bs, hash);
    MapOfSize(Flatten(bs));
  }

  /** Under the invariant a value is stored iff some pair carries it. */
  lemma ContentsValues<K, V>(bs: Table<K, V>, hash: K -> int, v: V)
    requires WellFormed(bs, hash)
    ensures v in AsMap(bs).Values <==> exists p :: p in Flatten(bs) && p.value == v
  {
    EntriesKeysDistinct(bs, hash);
    MapOfValues(Flatten(bs), v);
  }

  /** Every stored pair is an entry of the abstract map. */
  lemma StoredPairInContents<K, V>(bs: Table<K, V>, hash: K -> int, b: int, p: Pair<K, V>)
    requires WellFormed(bs, hash) && 0 <= b < |bs| && p in bs[b]
    ensures p.key in AsMap(bs) && AsMap(bs)[p.key] == p.value
  {
    InFlatten(bs, p);
    EntriesKeysDistinct(bs, hash);
    MapOfValue(Flatten(bs), p);
  }

  /** Under the invariant, searching the one bucket the key's hash selects
      answers the lookup of the abstract map. */
  lemma LookupContents<K, V>(bs: Table<K, V>, hash: K -> int, k: K)
    requires WellFormed(bs, hash)
    ensures Lookup(bs[BucketIndex(hash(k), |bs|)], k) == MapGet(AsMap(bs), k)
  {
    var bk := BucketIndex(hash(k), |bs|);
    if k in AsMap(bs) {
      var p := Pair(k, AsMap(bs)[k]);
      MapOfPair(Flatten(bs), k);
      InFlatten(bs, p);
      var b :| 0 <= b < |bs| && p in bs[b];
      assert b == bk;
    } else if Lookup(bs[bk], k).Some? {
      var p :| p in bs[bk] && p.key == k;
      StoredPairInContents(bs, hash, bk, p);
      assert false;
    }
  }

  // ----------------------------------------------------------------------
  // Emptying
  // ----------------------------------------------------------------------

  lemma {:induction false} EmptyTotalLength<K, V>(bs: Table<K, V>)
    requires forall b :: 0 <= b < |bs| ==> bs[b] == []
    ensures TotalLength(bs) == 0
  {
    if |bs| > 0 {
      EmptyTotalLength(bs[1..]);
    }
  }

  /** A table of empty buckets satisfies the invariant and maps nothing. */
  lemma EmptyTable<K, V>(bs: Table<K, V>, hash: K -> int)
    requires |bs| > 0 && forall b :: 0 <= b < |bs| ==> bs[b] == []
    ensures WellFormed(bs, hash) && TotalLength(bs) == 0 && AsMap(bs) == map[]
  {
    EmptyTotalLength(bs);
  }

  /** Replacing one bucket changes the total by the difference in length. */
  lemma {:induction false} TotalLengthUpdate<K, V>(bs: Table<K, V>, b: int, ps: Bucket<K, V>)
    requires 0 <= b < |bs|
    ensures TotalLength(bs[b := ps]) == TotalLength(bs) - |bs[b]| + |ps|
  {
    if b == 0 {
      assert bs[b := ps][1..] == bs[1..];
    } else {
      assert bs[b := ps][1..] == bs[1..][b - 1 := ps];
      TotalLengthUpdate(bs[1..], b - 1, ps);
    }
  }

  // ----------------------------------------------------------------------
  // Insertion
  // ----------------------------------------------------------------------

  /** put on one bucket: replace the value of the pair with key `k` where it
      stands, or append a new pair when there is none. */
  function PutInBucket<K(==), V>(ps: Bucket<K, V>, k: K, v: V): (r: Bucket<K, V>)
    ensures Pair(k, v) in r
    ensures |r| == if Lookup(ps, k).None? then |ps| + 1 else |ps|
  {
    var i := IndexOfKey(ps, k);
    if i < 0 then
      assert (ps + [Pair(k, v)])[|ps|] == Pair(k, v);
      ps + [Pair(k, v)]
    else
      assert ps[i := Pair(k, v)][i] == Pair(k, v);
      ps[i := Pair(k, v)]
  }

  /** put on the table: only the bucket of `k` changes. */
  function PutBuckets<K(==), V>(bs: Table<K, V>, hash: K -> int, k: K, v: V): (r: Table<K, V>)
    requires |bs| > 0
    ensures |r| == |bs|
  {
    var b := BucketIndex(hash(k), |bs|);
    bs[b := PutInBucket(bs[b], k, v)]
  }

  /** After a put on a bucket, `k` maps to `v` and every other key keeps its
      value; keys stay distinct and the only new pair is `(k, v)`. */
  lemma LookupPutInBucket<K, V>(ps: Bucket<K, V>, k: K, v: V, k': K)
    requires KeysDistinct(ps)
    ensures KeysDistinct(PutInBucket(ps, k, v))
    ensures forall p :: p in PutInBucket(ps, k, v) ==> p in ps || p == Pair(k, v)
    ensures Lookup(PutInBucket(ps, k, v), k') == if k' == k then Some(v) else Lookup(ps, k')
  {
    var i := IndexOfKey(ps, k);
    var ps' := PutInBucket(ps, k, v);
    if i < 0 {
      assert ps'[|ps|] == Pair(k, v);
      assert forall x :: 0 <= x < |ps| ==> ps'[x] == ps[x];
    } else {
      assert forall x :: 0 <= x < |ps| ==> ps'[x].key == ps[x].key;
      assert ps'[i] == Pair(k, v);
      if k' != k {
        if p :| p in ps && p.key == k' {
          var x :| 0 <= x < |ps| && ps[x] == p;
          assert ps'[x] == p;
        }
      }
    }
  }

  /** put keeps the table invariant. */
  lemma PutWellFormed<K, V>(bs: Table<K, V>, hash: K -> int, k: K, v: V)
    requires WellFormed(bs, hash)
    ensures WellFormed(PutBuckets(bs, hash, k, v), hash)
  {
    var b := BucketIndex(hash(k), |bs|);
    LookupPutInBucket(bs[b], k, v, k);
  }

  /** put changes the abstract map by exactly `k := v`. */
  lemma PutContents<K, V>(bs: Table<K, V>, hash: K -> int, k: K, v: V)
    requires WellFormed(bs, hash)
    ensures AsMap(PutBuckets(bs, hash, k, v)) == AsMap(bs)[k := v]
  {
    var bs' := PutBuckets(bs, hash, k, v);
    var b := BucketIndex(hash(k), |bs|);
    PutWellFormed(bs, hash, k, v);
    forall k' ensures MapGet(AsMap(bs'), k') == MapGet(AsMap(bs)[k := v], k') {
      LookupContents(bs, hash, k');
      LookupContents(bs', hash, k');
      if BucketIndex(hash(k'), |bs|) == b {
        LookupPutInBucket(bs[b], k, v, k');
      }
    }
    MapGetExtensional(AsMap(bs'), AsMap(bs)[k := v]);
  }

  /** put adds one pair when the key was absent and none when it was present. */
  lemma PutTotalLength<K, V>(bs: Table<K, V>, hash: K -> int, k: K, v: V)
    requires WellFormed(bs, hash)
    ensures TotalLength(PutBuckets(bs, hash, k, v))
         == TotalLength(bs) + (if k in AsMap(bs) then 0 else 1)
  {
    var b := BucketIndex(hash(k), |bs|);
    LookupContents(bs, hash, k);
    TotalLengthUpdate(bs, b, PutInBucket(bs[b], k, v));
  }

  /** A sequence of puts, in order. */
  function PutEach<K(==), V>(bs: Table<K, V>, hash: K -> int, es: Bucket<K, V>): (r: Table<K, V>)
    requires |bs| > 0
    ensures |r| == |bs|
  {
    if |es| == 0 then bs
    else
      var last := es[|es| - 1];
      PutBuckets(PutEach(bs, hash, es[..|es| - 1]), hash, last.key, last.value)
  }

  lemma UpdateAfterMerge<K, V>(m: map<K, V>, n: map<K, V>, k: K, v: V)
    ensures (m + n)[k := v] == m + n[k := v]
  {
  }

  /** Putting a sequence of pairs in order keeps the invariant and merges
      their map over the table's, the later pairs winning. */
  lemma {:induction false} PutEachContents<K, V>(bs: Table<K, V>, hash: K -> int, es: Bucket<K, V>)
    requires WellFormed(bs, hash)
    ensures WellFormed(PutEach(bs, hash, es), hash)
    ensures AsMap(PutEach(bs, hash, es)) == AsMap(bs) + MapOf(es)
  {
    if |es| > 0 {
      var init, last := es[..|es| - 1], es[|es| - 1];
      var mid := PutEach(bs, hash, init);
      PutEachContents(bs, hash, init);
      PutWellFormed(mid, hash, last.key, last.value);
      PutContents(mid, hash, last.key, last.value);
      assert PutEach(bs, hash, es) == PutBuckets(mid, hash, last.key, last.value);
      assert MapOf(es) == MapOf(init)[last.key := last.value];
      UpdateAfterMerge(AsMap(bs), MapOf(init), last.key, last.value);
    }
  }

  // ----------------------------------------------------------------------
  // Removal
  // ----------------------------------------------------------------------

  /** remove on one bucket: delete the pair with key `k`, if any, keeping the
      order of the others. */
  function RemoveFromBucket<K(==), V>(ps: Bucket<K, V>, k: K): (r: Bucket<K, V>)
    ensures Lookup(ps, k).None? ==> r == ps
    ensures |r| == if Lookup(ps, k).None? then |ps| else |ps| - 1
  {
    var i := IndexOfKey(ps, k);
    if i < 0 then ps else ps[..i] + ps[i + 1..]
  }

  /** remove on the table: only the bucket of `k` changes. */
  function RemoveBuckets<K(==), V>(bs: Table<K, V>, hash: K -> int, k: K): (r: Table<K, V>)
    requires |bs| > 0
    ensures |r| == |bs|
  {
    var b := BucketIndex(hash(k), |bs|);
    bs[b := RemoveFromBucket(bs[b], k)]
  }

  /** After a remove on a bucket, `k` is gone and every other key keeps its
      value; no pair is added. */
  lemma LookupRemoveFromBucket<K, V>(ps: Bucket<K, V>, k: K, k': K)
    requires KeysDistinct(ps)
    ensures KeysDistinct(RemoveFromBucket(ps, k))
    ensures forall p :: p in RemoveFromBucket(ps, k) ==> p in ps
    ensures Lookup(RemoveFromBucket(ps, k), k') == if k' == k then None else Lookup(ps, k')
  {
    var i := IndexOfKey(ps, k);
    if i >= 0 {
      var ps' := RemoveFromBucket(ps, k);
      RemoveAtDistinct(ps, i);
      if k' != k {
        RemoveAtLookup(ps, i, k');
      }
    }
  }

  /** Dropping position `i` leaves the lookup of every other key alone. */
  lemma RemoveAtLookup<K, V>(ps: Bucket<K, V>, i: int, k': K)
    requires 0 <= i < |ps| && KeysDistinct(ps) && k' != ps[i].key
    ensures Lookup(ps[..i] + ps[i + 1..], k') == Lookup(ps, k')
  {
    var ps' := ps[..i] + ps[i + 1..];
    RemoveAtDistinct(ps, i);
    if p :| p in ps && p.key == k' {
      var x :| 0 <= x < |ps| && ps[x] == p;
      assert x != i;
      if x < i {
        assert ps'[x] == p;
      } else {
        assert ps'[x - 1] == p;
      }
    }
  }

  /** Dropping position `i` shifts the later pairs down by one. */
  lemma RemoveAtShape<K, V>(ps: Bucket<K, V>, i: int)
    requires 0 <= i < |ps|
    ensures |ps[..i] + ps[i + 1..]| == |ps| - 1
    ensures forall x :: 0 <= x < |ps| - 1 ==>
      (ps[..i] + ps[i + 1..])[x] == if x < i then ps[x] else ps[x + 1]
  {
  }

  /** Dropping position `i` keeps keys distinct and leaves only pairs that
      were there, none of them the dropped one's key. */
  lemma RemoveAtDistinct<K, V>(ps: Bucket<K, V>, i: int)
    requires 0 <= i < |ps| && KeysDistinct(ps)
    ensures KeysDistinct(ps[..i] + ps[i + 1..])
    ensures forall p :: p in ps[..i] + ps[i + 1..] ==> p in ps && p.key != ps[i].key
  {
    var ps' := ps[..i] + ps[i + 1..];
    RemoveAtShape(ps, i);
    forall x, y | 0 <= x < y < |ps'| ensures ps'[x].key != ps'[y].key {
      var x', y' := if x < i then x else x + 1, if y < i then y else y + 1;
      assert ps'[x] == ps[x'] && ps'[y] == ps[y'] && x' < y';
    }
    forall p | p in ps' ensures p in ps && p.key != ps[i].key {
      var x :| 0 <= x < |ps'| && ps'[x] == p;
      var x' := if x < i then x else x + 1;
      assert ps[x'] == p && x' != i;
    }
  }

  /** remove keeps the table invariant. */
  lemma RemoveWellFormed<K, V>(bs: Table<K, V>, hash: K -> int, k: K)
    requires WellFormed(bs, hash)
    ensures WellFormed(RemoveBuckets(bs, hash, k), hash)
  {
    var b := BucketIndex(hash(k), |bs|);
    LookupRemoveFromBucket(bs[b], k, k);
  }

  /** remove takes exactly `k` out of the abstract map. */
  lemma RemoveContents<K, V>(bs: Table<K, V>, hash: K -> int, k: K)
    requires WellFormed(bs, hash)
    ensures AsMap(RemoveBuckets(bs, hash, k)) == AsMap(bs) - {k}
  {
    var bs' := RemoveBuckets(bs, hash, k);
    var b := BucketIndex(hash(k), |bs|);
    RemoveWellFormed(bs, hash, k);
    forall k' ensures MapGet(AsMap(bs'), k') == MapGet(AsMap(bs) - {k}, k') {
      LookupContents(bs, hash, k');
      LookupContents(bs', hash, k');
      if BucketIndex(hash(k'), |bs|) == b {
        LookupRemoveFromBucket(bs[b], k, k');
      }
    }
    MapGetExtensional(AsMap(bs'), AsMap(bs) - {k});
  }

  /** remove deletes one pair when the key was present and none otherwise. */
  lemma RemoveTotalLength<K, V>(bs: Table<K, V>, hash: K -> int, k: K)
    requires WellFormed(bs, hash)
    ensures TotalLength(RemoveBuckets(bs, hash, k))
         == TotalLength(bs) - (if k in AsMap(bs) then 1 else 0)
  {
    var b := BucketIndex(hash(k), |bs|);
    LookupContents(bs, hash, k);
    TotalLengthUpdate(bs, b, RemoveFromBucket(bs[b], k));
  }

  // ----------------------------------------------------------------------
  // Iteration
  // ----------------------------------------------------------------------

  /** The pairs an iteration positioned at bucket `h`, list index `l` has
      still to yield; nothing once `h` is past the last bucket. */
  function Suffix<K, V>(bs: Table<K, V>, h: int, l: int): Bucket<K, V>
    requires 0 <= h <= |bs|
    requires h < |bs| ==> 0 <= l <= |bs[h]|
  {
    if h == |bs| then [] else bs[h][l..] + Flatten(bs[h + 1..])
  }

  /** Empty buckets contribute nothing to the iteration. */
  lemma {:induction false} SkipEmptyBuckets<K, V>(bs: Table<K, V>, i: int, j: int)
    requires 0 <= i <= j <= |bs|
    requires forall b :: i <= b < j ==> bs[b] == []
    ensures Flatten(bs[i..]) == Flatten(bs[j..])
    decreases j - i
  {
    if i < j {
      assert bs[i..][1..] == bs[i + 1..];
      SkipEmptyBuckets(bs, i + 1, j);
    }
  }

  /** When buckets `i` up to `h` are empty, an iteration positioned at the
      start of bucket `h` has everything from bucket `i` on still to yield. */
  lemma SuffixAfterEmptyBuckets<K, V>(bs: Table<K, V>, i: int, h: int)
    requires 0 <= i <= h <= |bs|
    requires forall b :: i <= b < h ==> bs[b] == []
    ensures Suffix(bs, h, 0) == Flatten(bs[i..])
  {
    SkipEmptyBuckets(bs, i, h);
    if h < |bs| {
      assert bs[h..][1..] == bs[h + 1..];
    }
  }

  /** One step of the iteration: the pair at (h, l) comes next, followed by
      the rest of its bucket, or by the later buckets when it was the last. */
  lemma SuffixStep<K, V>(bs: Table<K, V>, h: int, l: int)
    requires 0 <= h < |bs| && 0 <= l < |bs[h]|
    ensures Suffix(bs, h, l)
         == [bs[h][l]] + (if l + 1 < |bs[h]| then Suffix(bs, h, l + 1) else Flatten(bs[h + 1..]))
  {
    var rest := Flatten(bs[h + 1..]);
    assert bs[h][l..] == [bs[h][l]] + bs[h][l + 1..];
    if l + 1 < |bs[h]| {
      assert Suffix(bs, h, l + 1) == bs[h][l + 1..] + rest;
      assert ([bs[h][l]] + bs[h][l + 1..]) + rest == [bs[h][l]] + (bs[h][l + 1..] + rest);
    } else {
      assert bs[h][l + 1..] == [];
      assert bs[h][l..] == [bs[h][l]];
    }
  }

  /** An iteration that has yielded `done` and is positioned at (h, l)
      yields `bs[h][l]` and moves to (h', l'): the next index in the same
      bucket, or the start of the next non-empty bucket. What it has yielded
      and what remains still make up the whole iteration. */
  lemma IterationStep<K, V>(bs: Table<K, V>, all: Bucket<K, V>, done: Bucket<K, V>,
                            h: int, l: int, h': int, l': int)
    requires 0 <= h < |bs| && 0 <= l < |bs[h]|
    requires done + Suffix(bs, h, l) == all
    requires l + 1 < |bs[h]| ==> h' == h && l' == l + 1
    requires l + 1 >= |bs[h]| ==>
      && l' == 0 && h + 1 <= h' <= |bs|
      && forall b :: h + 1 <= b < h' ==> bs[b] == []
    ensures 0 <= h' <= |bs| && (h' < |bs| ==> 0 <= l' <= |bs[h']|)
    ensures (done + [bs[h][l]]) + Suffix(bs, h', l') == all
  {
    SuffixStep(bs, h, l);
    if l + 1 >= |bs[h]| {
      SuffixAfterEmptyBuckets(bs, h + 1, h');
    }
    var rest := Suffix(bs, h', l');
    assert (done + [bs[h][l]]) + rest == done + ([bs[h][l]] + rest);
  }
}
