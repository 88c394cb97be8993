/** Client programs that replay the situations the repository's unit tests
    check, proved from the contracts of module HashMap and the lemmas of
    module Buckets. The hash
    function is a parameter: each holds whatever `hashCode()` returns. */
module Scenarios {
  import opened Wrappers
  import opened Buckets
  import opened HashMap

  /** A fresh map of capacity 10 after putting "evya" -> 31 and "evy" -> 30. */
  method TwoEntries(hash: string -> int) returns (hm: GenericHashMap<string, int>)
    ensures fresh(hm) && fresh(hm.myHash) && hm.Valid() && hm.hash == hash
    ensures hm.Contents() == map["evya" := 31, "evy" := 30] && |hm.Entries()| == 2
  {
    hm := new GenericHashMap<string, int>(10, hash);
    var _ := hm.Put("evya", 31);
    var _ := hm.Put("evy", 30);
    assert hm.Size() == 2;
  }

  /** A fresh map of capacity 10 after putting "evyat" -> 35 and "ev" -> 30. */
  method TwoOtherEntries(hash: string -> int) returns (hm: GenericHashMap<string, int>)
    ensures fresh(hm) && fresh(hm.myHash) && hm.Valid() && hm.hash == hash
    ensures hm.Contents() == map["evyat" := 35, "ev" := 30]
  {
    hm := new GenericHashMap<string, int>(10, hash);
    var _ := hm.Put("evyat", 35);
    var _ := hm.Put("ev", 30);
  }

  /** Two puts of new keys, then removing one of them twice: the sizes,
      the removed value and the absent results. */
  method SizeAndRemove(hash: string -> int)
    returns (sizeAfterPuts: int, removed: Option<int>, removedAgain: Option<int>,
             sizeAfterRemove: int, lookup: Option<int>, empty: bool)
    ensures sizeAfterPuts == 2
    ensures removed == Some(30) && removedAgain == None
    ensures sizeAfterRemove == 1 && lookup == None && !empty
  {
    var hm := TwoEntries(hash);
    sizeAfterPuts := hm.Size();
    removed := hm.Remove("evy");
    removedAgain := hm.Remove("evy");
    assert "evya" in hm.Contents();
    sizeAfterRemove := hm.Size();
    lookup := hm.Get("evy");
    empty := hm.IsEmpty();
  }

  /** put returns None for a new key and the previous value for a known one. */
  method PutReturnsPrevious(hash: string -> int) returns (first: Option<int>, second: Option<int>, now: Option<int>)
    ensures first == None && second == Some(31) && now == Some(32)
  {
    var hm := new GenericHashMap<string, int>(10, hash);
    first := hm.Put("evya", 31);
    second := hm.Put("evya", 32);
    now := hm.Get("evya");
  }

  /** containsValue sees a value a key holds. */
  method ContainsStoredValue(hash: string -> int) returns (found: bool)
    ensures found
  {
    var hm := TwoEntries(hash);
    assert hm.Contents()["evy"] == 30;
    found := hm.ContainsValue(30);
  }

  /** After removing the only key holding a value, containsValue no longer
      sees it but still sees the other key's value. */
  method ContainsValueAfterRemove(hash: string -> int) returns (kept: bool, after: bool)
    ensures kept && !after
  {
    var hm := TwoEntries(hash);
    var _ := hm.Remove("evy");
    ghost var m := hm.Contents();
    assert m == map["evya" := 31];
    assert m["evya"] == 31;
    kept := hm.ContainsValue(31);
    assert 30 !in m.Values by {
      forall k | k in m ensures m[k] != 30 {
        assert k == "evya";
      }
    }
    after := hm.ContainsValue(30);
  }

  /** A put that only replaces the value of a known key still advances
      modCount, so a value iterator made before it fails on its next step. */
  method ValueUpdateInvalidatesIterator(hash: string -> int)
    returns (first: Result<int, IterError>, second: Result<int, IterError>)
    ensures first.Success?
    ensures second == Failure(ConcurrentModification)
  {
    var hm := TwoEntries(hash);
    var iter := new ValueIterator(hm);
    first := iter.Next();
    var _ := hm.Put("evy", 33);
    assert !iter.entries.Live();
    second := iter.Next();
  }

  /** A fresh map of capacity 10 after putting 31 -> "evy" and 30 -> "evya". */
  method TwoIntKeys(hash: int -> int) returns (hm: GenericHashMap<int, string>)
    ensures fresh(hm) && fresh(hm.myHash) && hm.Valid() && hm.hash == hash
    ensures hm.Contents() == map[31 := "evy", 30 := "evya"] && |hm.Entries()| == 2
  {
    hm := new GenericHashMap<int, string>(10, hash);
    var _ := hm.Put(31, "evy");
    var _ := hm.Put(30, "evya");
    assert hm.Size() == 2;
  }

  /** Inserting a new key during a key iteration makes its next step fail. */
  method NewKeyInvalidatesIterator(hash: int -> int)
    returns (first: Result<int, IterError>, second: Result<int, IterError>)
    ensures first.Success?
    ensures second == Failure(ConcurrentModification)
  {
    var hm := TwoIntKeys(hash);
    var iter := new KeyIterator(hm);
    first := iter.Next();
    var _ := hm.Put(33, "evya");
    assert !iter.entries.Live();
    second := iter.Next();
  }

  /** clear during an entry iteration makes its next step fail. */
  method ClearInvalidatesIterator(hash: string -> int)
    returns (first: Result<Pair<string, int>, IterError>, second: Result<Pair<string, int>, IterError>)
    ensures first.Success?
    ensures second == Failure(ConcurrentModification)
  {
    var hm := TwoEntries(hash);
    var iter := new EntrySetIterator(hm);
    first := iter.Next();
    hm.Clear();
    assert !iter.Live();
    second := iter.Next();
  }

  /** Two pairs with distinct keys whose map is {evya: 31, evy: 30} are
      exactly those two pairs, in some order. */
  lemma TwoPairs(ps: Bucket<string, int>)
    requires KeysDistinct(ps) && |ps| == 2
    requires MapOf(ps) == map["evya" := 31, "evy" := 30]
    ensures multiset(ps) == multiset{Pair("evya", 31), Pair("evy", 30)}
  {
    assert ps == [ps[0], ps[1]];
    MapOfValue(ps, ps[0]);
    MapOfValue(ps, ps[1]);
    assert ps[0].key != ps[1].key;
    if ps[0].key == "evya" {
      assert ps[0] == Pair("evya", 31) && ps[1] == Pair("evy", 30);
    } else {
      assert ps[0] == Pair("evy", 30) && ps[1] == Pair("evya", 31);
    }
  }

  /** Draining a fresh entry iterator over a map nobody changes yields
      every stored pair exactly once, in bucket order, and a further step
      reports exhaustion. */
  method IterateAll<K(==), V(==)>(hm: GenericHashMap<K, V>)
    returns (yielded: seq<Pair<K, V>>, last: Result<Pair<K, V>, IterError>)
    requires hm.Valid()
    ensures yielded == hm.Entries()
    ensures last == Failure(NoSuchElement)
  {
    var iter := new EntrySetIterator(hm);
    yielded := [];
    while iter.HasNext()
      invariant iter.Valid() && iter.hashMap == hm && iter.Live() && fresh(iter)
      invariant yielded == iter.Yielded
      decreases |hm.Entries()| - |iter.Yielded|
    {
      var e := iter.Next();
      yielded := yielded + [e.value];
    }
    last := iter.Next();
  }

  /** Iterating the two-entry map yields both pairs once, then reports
      exhaustion. */
  method IterateToExhaustion(hash: string -> int)
    returns (yielded: seq<Pair<string, int>>, last: Result<Pair<string, int>, IterError>)
    ensures |yielded| == 2
    ensures multiset(yielded) == multiset{Pair("evya", 31), Pair("evy", 30)}
    ensures last == Failure(NoSuchElement)
  {
    var hm := TwoEntries(hash);
    yielded, last := IterateAll(hm);
    EntriesKeysDistinct(hm.Buckets(), hash);
    TwoPairs(yielded);
  }

  /** The merge the putAll scenario expects: four distinct keys, the
      receiver's keys keep their values and the argument's keys are added. */
  lemma MergedEntries(m0: map<string, int>, m1: map<string, int>)
    requires m0 == map["evya" := 31, "evy" := 30]
    requires m1 == map["evyat" := 35, "ev" := 30]
    ensures |m0 + m1| == 4
    ensures MapGet(m0 + m1, "evya") == Some(31) && MapGet(m0 + m1, "evyat") == Some(35)
  {
    assert (m0 + m1).Keys == {"evya", "evy", "evyat", "ev"};
  }

  /** The receiver of the putAll scenario after the call. */
  method MergedMap(hash: string -> int) returns (hm: GenericHashMap<string, int>)
    ensures hm.Valid() && |hm.Contents()| == 4
    ensures MapGet(hm.Contents(), "evya") == Some(31) && MapGet(hm.Contents(), "evyat") == Some(35)
  {
    hm := TwoEntries(hash);
    var hm1 := TwoOtherEntries(hash);
    MergedEntries(hm.Contents(), hm1.Contents());
    hm.PutAll(hm1);
  }

  /** putAll of a map with two other keys into a map with two keys: four
      entries, one kept from each side checked by get. */
  method PutAllMerges(hash: string -> int) returns (size: int, evya: Option<int>, evyat: Option<int>)
    ensures size == 4 && evya == Some(31) && evyat == Some(35)
  {
    var hm := MergedMap(hash);
    size := hm.Size();
    evya := hm.Get("evya");
    evyat := hm.Get("evyat");
  }
}
