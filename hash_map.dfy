/** `GenericHashMap`: a separate-chaining hash map over a fixed number of
    buckets, with a fail-fast entry iterator and its key and value
    projections.

    The buckets live in an array whose elements are replaced in place; the
    class is proved against the value-level model of module Buckets:
    `Buckets()` is the table, `Entries()` the iteration order and
    `Contents()` the abstract map. */
module HashMap {
  import opened Wrappers
  import opened Buckets

  /** Why `next` can fail: the map changed since the iterator was made
      (ConcurrentModificationException), or nothing is left
      (NoSuchElementException). */
  datatype IterError = ConcurrentModification | NoSuchElement

  class GenericHashMap<K(==), V(==)> {
    /** One bucket per index; a bucket is a list of pairs in insertion order. */
    const myHash: array<Bucket<K, V>>
    /** Number of stored pairs. */
    var size: int
    /** Revision counter; every put, every successful remove and every clear
        advances it. */
    var modCount: int
    const capacity: int
    /** The hash code of a key (`hashCode()` in the Java code). */
    const hash: K -> int

    /** The object invariant: `capacity` buckets, the table invariant, and
        `size` equal to the sum of the bucket lengths. */
    ghost predicate Valid()
      reads this, myHash
    {
      && capacity > 0
      && myHash.Length == capacity
      && WellFormed(myHash[..], hash)
      && size == TotalLength(myHash[..])
    }

    /** The buckets as a value. */
    ghost function Buckets(): Table<K, V>
      reads myHash
    {
      myHash[..]
    }

    /** Every stored pair, in iteration order. */
    ghost function Entries(): Bucket<K, V>
      reads myHash
    {
      Flatten(myHash[..])
    }

    /** The abstract map the buckets represent. */
    ghost function Contents(): map<K, V>
      reads myHash
    {
      AsMap(myHash[..])
    }

    /** A map with `capacity` empty buckets. */
    constructor (capacity: int, hash: K -> int)
      requires capacity > 0
      ensures Valid() && fresh(myHash)
      ensures this.capacity == capacity && this.hash == hash
      ensures forall b :: 0 <= b < capacity ==> myHash[b] == []
      ensures size == 0 && modCount == 0
      ensures Contents() == map[]
    {
      var buckets := new Bucket<K, V>[capacity];
      var i := 0;
      while i < capacity
        invariant 0 <= i <= capacity
        invariant forall b :: 0 <= b < i ==> buckets[b] == []
      {
        buckets[i] := [];
        i := i + 1;
      }
      myHash := buckets;
      this.capacity := capacity;
      this.hash := hash;
      size := 0;
      modCount := 0;
      new;
      EmptyTable(myHash[..], hash);
    }

    /** The bucket `key` belongs to. */
    function IdxOfKeyInHash(key: K): (b: int)
      requires capacity > 0
      ensures 0 <= b < capacity
      ensures hash(key) >= 0 ==> b == JavaRemainder(hash(key), capacity)
    {
      BucketIndex(hash(key), capacity)
    }

    /** Linear search of one bucket: the position of `key`, or -1. */
    method IdxOfKeyInList(idxInHash: int, key: K) returns (idx: int)
      requires 0 <= idxInHash < myHash.Length
      ensures idx == IndexOfKey(myHash[idxInHash], key)
      ensures -1 <= idx < |myHash[idxInHash]|
      ensures 0 <= idx ==> myHash[idxInHash][idx].key == key
      ensures idx < 0 <==> forall p :: p in myHash[idxInHash] ==> p.key != key
    {
      var bucket := myHash[idxInHash];
      idx := 0;
      while idx < |bucket|
        invariant 0 <= idx <= |bucket|
        invariant forall j :: 0 <= j < idx ==> bucket[j].key != key
      {
        if bucket[idx].key == key {
          return;
        }
        idx := idx + 1;
      }
      idx := -1;
    }

    /** The pair stored at a position; it is an entry of the map and sits in
        the bucket its key selects. */
    function GetPairFromHash(idxInHash: int, idxInList: int): (p: Pair<K, V>)
      reads this, myHash
      requires Valid()
      requires 0 <= idxInHash < capacity && 0 <= idxInList < |myHash[idxInHash]|
      ensures IdxOfKeyInHash(p.key) == idxInHash
      ensures p.key in Contents() && Contents()[p.key] == p.value
    {
      StoredPairInContents(myHash[..], hash, idxInHash, myHash[idxInHash][idxInList]);
      myHash[idxInHash][idxInList]
    }

    /** The value stored at a position: what the map holds for that pair's key. */
    function GetVal(idxInHash: int, idxInList: int): (v: V)
      reads this, myHash
      requires Valid()
      requires 0 <= idxInHash < capacity && 0 <= idxInList < |myHash[idxInHash]|
      ensures Lookup(myHash[idxInHash], myHash[idxInHash][idxInList].key) == Some(v)
      ensures var k := myHash[idxInHash][idxInList].key; k in Contents() && Contents()[k] == v
    {
      GetPairFromHash(idxInHash, idxInList).value
    }

    /** The value for `key`, or None (Java's null) when it is absent. */
    method Get(key: K) returns (r: Option<V>)
      requires Valid()
      ensures r == MapGet(Contents(), key)
      ensures r.Some? <==> exists p :: p in myHash[IdxOfKeyInHash(key)] && p.key == key
    {
      var idxInHash := IdxOfKeyInHash(key);
      var idxInList := IdxOfKeyInList(idxInHash, key);
      r := if idxInList != -1 then Some(GetVal(idxInHash, idxInList)) else None;
      LookupContents(myHash[..], hash, key);
    }

    /** Whether `key` is stored. */
    method ContainsKey(key: K) returns (r: bool)
      requires Valid()
      ensures r <==> key in Contents()
      ensures r <==> exists p :: p in myHash[IdxOfKeyInHash(key)] && p.key == key
    {
      var idxInList := IdxOfKeyInList(IdxOfKeyInHash(key), key);
      r := idxInList != -1;
      LookupContents(myHash[..], hash, key);
    }

    /** The number of stored pairs, which is the number of distinct keys. */
    function Size(): (n: int)
      reads this, myHash
      requires Valid()
      ensures n == |Contents()| && n == |Entries()|
    {
      ContentsSize(myHash[..], hash);
      size
    }

    /** Whether no pair is stored. */
    function IsEmpty(): (r: bool)
      reads this, myHash
      requires Valid()
      ensures r <==> Contents() == map[]
      ensures r <==> Entries() == []
    {
      ContentsSize(myHash[..], hash);
      size == 0
    }

    /** Inserts `key` with `value`, or replaces the value of the pair already
        holding `key` in place. Either way `modCount` advances. Returns the
        previous value, or None when the key was new. */
    method Put(key: K, value: V) returns (r: Option<V>)
      requires Valid()
      modifies this, myHash
      ensures Valid()
      ensures modCount == old(modCount) + 1
      ensures r == old(MapGet(Contents(), key))
      ensures Contents() == old(Contents())[key := value]
      ensures Buckets() == PutBuckets(old(Buckets()), hash, key, value)
      ensures size == if r.None? then old(size) + 1 else old(size)
    {
      ghost var bs := myHash[..];
      r := None;
      var idxInHash := IdxOfKeyInHash(key);
      var idxInList := IdxOfKeyInList(idxInHash, key);
      LookupContents(bs, hash, key);
      PutWellFormed(bs, hash, key, value);
      PutContents(bs, hash, key, value);
      TotalLengthUpdate(bs, idxInHash, PutInBucket(bs[idxInHash], key, value));

      modCount := modCount + 1;

      if idxInList != -1 {
        r := Some(GetVal(idxInHash, idxInList));
        myHash[idxInHash] := myHash[idxInHash][idxInList := Pair(key, value)];
      } else {
        myHash[idxInHash] := myHash[idxInHash] + [Pair(key, value)];
        size := size + 1;
      }
      assert myHash[..] == PutBuckets(bs, hash, key, value);
    }

    /** Removes the pair holding `key` and returns its value; when the key
        is absent returns None and changes nothing. */
    method Remove(key: K) returns (r: Option<V>)
      requires Valid()
      modifies this, myHash
      ensures Valid()
      ensures r == old(MapGet(Contents(), key))
      ensures Contents() == old(Contents()) - {key}
      ensures Buckets() == RemoveBuckets(old(Buckets()), hash, key)
      ensures size == if r.Some? then old(size) - 1 else old(size)
      ensures modCount == if r.Some? then old(modCount) + 1 else old(modCount)
    {
      ghost var bs := myHash[..];
      r := None;
      var idxInHash := IdxOfKeyInHash(key);
      var idxInList := IdxOfKeyInList(idxInHash, key);
      LookupContents(bs, hash, key);
      RemoveWellFormed(bs, hash, key);
      RemoveContents(bs, hash, key);
      TotalLengthUpdate(bs, idxInHash, RemoveFromBucket(bs[idxInHash], key));

      if idxInList != -1 {
        r := Some(GetVal(idxInHash, idxInList));
        myHash[idxInHash] := myHash[idxInHash][..idxInList] + myHash[idxInHash][idxInList + 1..];
        size := size - 1;
        modCount := modCount + 1;
      }
      assert myHash[..] == RemoveBuckets(bs, hash, key);
    }

    /** Empties every bucket; `modCount` advances once. */
    method Clear()
      requires Valid()
      modifies this, myHash
      ensures Valid()
      ensures forall b :: 0 <= b < capacity ==> myHash[b] == []
      ensures size == 0 && modCount == old(modCount) + 1
      ensures Contents() == map[]
    {
      var i := 0;
      while i < myHash.Length
        invariant 0 <= i <= myHash.Length
        invariant forall b :: 0 <= b < i ==> myHash[b] == []
        invariant modCount == old(modCount)
      {
        myHash[i] := [];
        i := i + 1;
      }
      size := 0;
      modCount := modCount + 1;
      EmptyTable(myHash[..], hash);
    }

    /** The least non-empty bucket at or after `idxInHash`, or `capacity`
        when there is none. */
    method FindNextIdxInHash(idxInHash: int) returns (r: int)
      requires Valid()
      requires 0 <= idxInHash <= capacity
      ensures idxInHash <= r <= capacity
      ensures r < capacity ==> myHash[r] != []
      ensures forall b :: idxInHash <= b < r ==> myHash[b] == []
    {
      r := idxInHash;
      while r < capacity && myHash[r] == []
        invariant idxInHash <= r <= capacity
        invariant forall b :: idxInHash <= b < r ==> myHash[b] == []
      {
        r := r + 1;
      }
    }

    /** Whether some stored pair has `value`, found by walking the value
        iterator. */
    method ContainsValue(value: V) returns (r: bool)
      requires Valid()
      ensures r <==> exists p :: p in Entries() && p.value == value
      ensures r <==> value in Contents().Values
    {
      var iter := new ValueIterator(this);
      r := false;
      while iter.HasNext()
        invariant iter.Valid() && iter.entries.hashMap == this && iter.entries.Live()
        invariant fresh(iter) && fresh(iter.entries)
        invariant forall p :: p in iter.entries.Yielded ==> p.value != value
        decreases |Entries()| - |iter.entries.Yielded|
      {
        ghost var next := Entries()[|iter.entries.Yielded|];
        var v := iter.Next();
        if v == Success(value) {
          assert next in Entries() && next.value == value;
          r := true;
          break;
        }
        assert next.value != value;
      }
      ContentsValues(myHash[..], hash, value);
    }

    /** Puts every entry of `other`, in `other`'s iteration order. */
    method PutAll(other: GenericHashMap<K, V>)
      requires Valid() && other.Valid()
      requires other != this && other.myHash != myHash
      modifies this, myHash
      ensures Valid()
      ensures Buckets() == PutEach(old(Buckets()), hash, other.Entries())
      ensures modCount == old(modCount) + |other.Entries()|
      ensures Contents() == old(Contents()) + other.Contents()
    {
      ghost var bs := myHash[..];
      ghost var es := other.Entries();
      var iter := new EntrySetIterator(other);
      while iter.HasNext()
        invariant Valid() && iter.Valid() && iter.hashMap == other && iter.Live()
        invariant fresh(iter) && other.Entries() == es
        invariant Buckets() == PutEach(bs, hash, iter.Yielded)
        invariant modCount == old(modCount) + |iter.Yielded|
        decreases |es| - |iter.Yielded|
      {
        ghost var done := iter.Yielded;
        var e := iter.Next();
        assert iter.Yielded[..|done|] == done;
        assert PutEach(bs, hash, iter.Yielded)
            == PutBuckets(PutEach(bs, hash, done), hash, e.value.key, e.value.value);
        var _ := Put(e.value.key, e.value.value);
      }
      PutEachContents(bs, hash, iter.Yielded);
    }
  }

  /** The fail-fast iterator over the entries: bucket by bucket in index
      order, and in list order within a bucket. */
  class EntrySetIterator<K(==), V(==)> {
    const hashMap: GenericHashMap<K, V>
    /** `modCount` when the iterator was made. */
    const modCounterChecker: int
    var idxInHash: int
    var idxInList: int
    /** The pairs returned so far. */
    ghost var Yielded: Bucket<K, V>

    /** The map has not changed since the iterator was made. */
    ghost predicate Live()
      reads this, hashMap
    {
      modCounterChecker == hashMap.modCount
    }

    /** While the map is unchanged, the position is a valid index into a
        non-empty bucket (or past the last bucket), and what was yielded
        followed by what remains is the whole iteration. */
    ghost predicate Valid()
      reads this, hashMap, hashMap.myHash
    {
      && hashMap.Valid()
      && modCounterChecker <= hashMap.modCount
      && (Live() ==>
            && 0 <= idxInHash <= hashMap.capacity
            && (idxInHash < hashMap.capacity ==> 0 <= idxInList < |hashMap.myHash[idxInHash]|)
            && Yielded + Suffix(hashMap.Buckets(), idxInHash, idxInList) == hashMap.Entries())
    }

    constructor (hashMap: GenericHashMap<K, V>)
      requires hashMap.Valid()
      ensures Valid() && this.hashMap == hashMap && Live() && Yielded == []
    {
      this.hashMap := hashMap;
      modCounterChecker := hashMap.modCount;
      idxInList := 0;
      Yielded := [];
      new;
      idxInHash := hashMap.FindNextIdxInHash(0);
      SuffixAfterEmptyBuckets(hashMap.Buckets(), 0, idxInHash);
      assert hashMap.Buckets()[0..] == hashMap.Buckets();
    }

    /** Whether a pair is left: while the map is unchanged, exactly when not
        every entry has been yielded. */
    function HasNext(): (b: bool)
      reads this, hashMap, hashMap.myHash
      requires Valid()
      ensures Live() ==> (b <==> |Yielded| < |hashMap.Entries()|)
      ensures Live() ==> Yielded <= hashMap.Entries()
      ensures Live() && !b ==> Yielded == hashMap.Entries()
    {
      idxInHash < hashMap.capacity
    }

    /** Fails if the map changed since the iterator was made, then fails if
        nothing is left; otherwise returns the next entry and advances. */
    method Next() returns (r: Result<Pair<K, V>, IterError>)
      requires Valid()
      modifies this
      ensures Valid()
      ensures !Live() ==> r == Failure(ConcurrentModification) && Yielded == old(Yielded)
      ensures Live() && |old(Yielded)| == |hashMap.Entries()| ==>
        r == Failure(NoSuchElement) && Yielded == old(Yielded)
      ensures Live() && |old(Yielded)| < |hashMap.Entries()| ==>
        r == Success(hashMap.Entries()[|old(Yielded)|])
          && Yielded == old(Yielded) + [hashMap.Entries()[|old(Yielded)|]]
    {
      if modCounterChecker != hashMap.modCount {
        return Failure(ConcurrentModification);
      }
      if !HasNext() {
        return Failure(NoSuchElement);
      }
      ghost var h, l := idxInHash, idxInList;
      var oldGp := hashMap.myHash[idxInHash][idxInList];
      idxInList := idxInList + 1;
      if idxInList >= |hashMap.myHash[idxInHash]| {
        idxInList := 0;
        idxInHash := idxInHash + 1;
        idxInHash := hashMap.FindNextIdxInHash(idxInHash);
      }
      IterationStep(hashMap.Buckets(), hashMap.Entries(), Yielded, h, l, idxInHash, idxInList);
      Yielded := Yielded + [oldGp];
      r := Success(oldGp);
    }
  }

  /** The keys, projected from a fresh entry iterator. */
  class KeyIterator<K(==), V(==)> {
    const entries: EntrySetIterator<K, V>

    ghost predicate Valid()
      reads this, entries, entries.hashMap, entries.hashMap.myHash
    {
      entries.Valid()
    }

    constructor (hashMap: GenericHashMap<K, V>)
      requires hashMap.Valid()
      ensures Valid() && fresh(entries) && entries.hashMap == hashMap
      ensures entries.Live() && entries.Yielded == []
    {
      entries := new EntrySetIterator(hashMap);
    }

    function HasNext(): (b: bool)
      reads this, entries, entries.hashMap, entries.hashMap.myHash
      requires Valid()
      ensures entries.Live() ==> (b <==> |entries.Yielded| < |entries.hashMap.Entries()|)
      ensures entries.Live() && !b ==> entries.Yielded == entries.hashMap.Entries()
    {
      entries.HasNext()
    }

    /** The key of the next entry, with the entry iterator's failures. */
    method Next() returns (r: Result<K, IterError>)
      requires Valid()
      modifies entries
      ensures Valid()
      ensures !entries.Live() ==>
        r == Failure(ConcurrentModification) && entries.Yielded == old(entries.Yielded)
      ensures entries.Live() && |old(entries.Yielded)| == |entries.hashMap.Entries()| ==>
        r == Failure(NoSuchElement) && entries.Yielded == old(entries.Yielded)
      ensures entries.Live() && |old(entries.Yielded)| < |entries.hashMap.Entries()| ==>
        r == Success(entries.hashMap.Entries()[|old(entries.Yielded)|].key)
          && entries.Yielded == old(entries.Yielded) + [entries.hashMap.Entries()[|old(entries.Yielded)|]]
    {
      var e := entries.Next();
      r := if e.Success? then Success(e.value.key) else Failure(e.error);
    }
  }

  /** The values, projected from a fresh entry iterator. */
  class ValueIterator<K(==), V(==)> {
    const entries: EntrySetIterator<K, V>

    ghost predicate Valid()
      reads this, entries, entries.hashMap, entries.hashMap.myHash
    {
      entries.Valid()
    }

    constructor (hashMap: GenericHashMap<K, V>)
      requires hashMap.Valid()
      ensures Valid() && fresh(entries) && entries.hashMap == hashMap
      ensures entries.Live() && entries.Yielded == []
    {
      entries := new EntrySetIterator(hashMap);
    }

    function HasNext(): (b: bool)
      reads this, entries, entries.hashMap, entries.hashMap.myHash
      requires Valid()
      ensures entries.Live() ==> (b <==> |entries.Yielded| < |entries.hashMap.Entries()|)
      ensures entries.Live() && !b ==> entries.Yielded == entries.hashMap.Entries()
    {
      entries.HasNext()
    }

    /** The value of the next entry, with the entry iterator's failures. */
    method Next() returns (r: Result<V, IterError>)
      requires Valid()
      modifies entries
      ensures Valid()
      ensures !entries.Live() ==>
        r == Failure(ConcurrentModification) && entries.Yielded == old(entries.Yielded)
      ensures entries.Live() && |old(entries.Yielded)| == |entries.hashMap.Entries()| ==>
        r == Failure(NoSuchElement) && entries.Yielded == old(entries.Yielded)
      ensures entries.Live() && |old(entries.Yielded)| < |entries.hashMap.Entries()| ==>
        r == Success(entries.hashMap.Entries()[|old(entries.Yielded)|].value)
          && entries.Yielded == old(entries.Yielded) + [entries.hashMap.Entries()[|old(entries.Yielded)|]]
    {
      var e := entries.Next();
      r := if e.Success? then Success(e.value.value) else Failure(e.error);
    }
  }
}
