/**
 * `FixedSizeDictionary<T>` (logviewer.core/FixedSizeDictionary.cs): an
 * integer-keyed dictionary for the keys `0 .. count - 1`, kept in two
 * parallel arrays. `store[k]` holds the value of key `k` and `indexes[k]`
 * marks it present (positive) or absent (zero).
 */
module FixedSize {

  /**
   * The pairs the enumerator yields from the slots below `n`, in slot
   * order: one pair per slot whose index entry is positive.
   */
  function Enumerated<T>(store: seq<T>, indexes: seq<int>, n: nat): seq<(int, T)>
    requires n <= |store| == |indexes|
  {
    if n == 0 then []
    else Enumerated(store, indexes, n - 1) + (if indexes[n - 1] > 0 then [(n - 1, store[n - 1])] else [])
  }

  /**
   * The enumeration below `n` is exactly the marked slots below `n`, by
   * strictly ascending key, each with its stored value.
   */
  lemma {:induction false} EnumeratedArePresent<T>(store: seq<T>, indexes: seq<int>, n: nat)
    requires n <= |store| == |indexes|
    ensures forall i, j | 0 <= i < j < |Enumerated(store, indexes, n)| ::
              Enumerated(store, indexes, n)[i].0 < Enumerated(store, indexes, n)[j].0
    ensures forall e | e in Enumerated(store, indexes, n) :: 0 <= e.0 < n && indexes[e.0] > 0 && e.1 == store[e.0]
    ensures forall k | 0 <= k < n && indexes[k] > 0 :: (k, store[k]) in Enumerated(store, indexes, n)
  {
    if n > 0 {
      EnumeratedArePresent(store, indexes, n - 1);
      var before := Enumerated(store, indexes, n - 1);
      var e := Enumerated(store, indexes, n);
      if indexes[n - 1] > 0 {
        assert e == before + [(n - 1, store[n - 1])];
      } else {
        assert e == before;
      }
    }
  }

  /** The slots below `i` whose index entry is positive. */
  function Present(ix: seq<int>, i: int): set<int>
    requires 0 <= i <= |ix|
  {
    set k | 0 <= k < i && ix[k] > 0
  }

  lemma {:induction false} PresentCount(ix: seq<int>, i: int)
    requires 0 <= i <= |ix|
    ensures |Present(ix, i)| <= i
  {
    if i > 0 {
      PresentCount(ix, i - 1);
      if ix[i - 1] > 0 {
        assert Present(ix, i) == Present(ix, i - 1) + {i - 1};
      } else {
        assert Present(ix, i) == Present(ix, i - 1);
      }
    }
  }

  class FixedSizeDictionary<T> {
    /** The capacity given to the constructor; it is also what `Count` reports. */
    const count: int
    /** `default(T)`, the value of an empty slot. */
    const defaultValue: T
    var store: array<T>
    var indexes: array<int>

    /** Both arrays have one slot per key. */
    ghost predicate Valid()
      reads this, indexes
    {
      store.Length == count && indexes.Length == count && store as object != indexes
      && forall k | 0 <= k < indexes.Length :: indexes[k] == 0 || indexes[k] == 1
    }

    /** The keys present: slots whose index entry is positive. */
    ghost function Keys(): (r: set<int>)
      reads this, indexes
      ensures forall k | k in r :: 0 <= k < indexes.Length && indexes[k] > 0
      ensures forall k | 0 <= k < indexes.Length && indexes[k] > 0 :: k in r
    {
      set k | 0 <= k < indexes.Length && indexes[k] > 0
    }

    /** Every slot starts empty, holding the default value. */
    constructor(count: int, defaultValue: T)
      requires count >= 0
      ensures Valid() && this.count == count && this.defaultValue == defaultValue
      ensures Keys() == {} && forall k | 0 <= k < count :: store[k] == defaultValue
      ensures fresh(store) && fresh(indexes)
    {
      this.count := count;
      this.defaultValue := defaultValue;
      store := new T[count](_ => defaultValue);
      indexes := new int[count](_ => 0);
    }

    /** `Count`: always the capacity, however many keys are present. */
    function Count(): (r: int)
      reads this, indexes
      ensures r == count
      ensures Valid() ==> r == store.Length && r == indexes.Length
    {
      count
    }

    /** `Count` bounds the present keys but does not count them: every present key is a slot index. */
    lemma KeysWithinCapacity()
      requires Valid()
      ensures |Keys()| <= Count()
    {
      assert Keys() == Present(indexes[..], count);
      PresentCount(indexes[..], count);
    }

    /** `ContainsKey`: false beyond the capacity, else whether the slot is marked. */
    function ContainsKey(key: int): (r: bool)
      reads this, indexes
      requires Valid() && key >= 0
      ensures r <==> key in Keys()
      ensures key >= count ==> !r
    {
      if key >= count then false else indexes[key] > 0
    }

    /** `Add(key, value)`: ignored beyond the capacity; else the key becomes present with that value. */
    method Add(key: int, value: T)
      requires Valid() && key >= 0
      modifies store, indexes
      ensures Valid()
      ensures key >= count ==> store[..] == old(store[..]) && indexes[..] == old(indexes[..])
      ensures key < count ==> store[..] == old(store[..])[key := value] && indexes[..] == old(indexes[..])[key := 1]
      ensures Keys() == if key < count then old(Keys()) + {key} else old(Keys())
    {
      if key >= count {
        return;
      }
      store[key] := value;
      indexes[key] := 1;
    }

    /** `Remove(key)`: false beyond the capacity; else the slot is emptied and the answer is true. */
    method Remove(key: int) returns (r: bool)
      requires Valid() && key >= 0
      modifies store, indexes
      ensures Valid() && r == (key < count)
      ensures !r ==> store[..] == old(store[..]) && indexes[..] == old(indexes[..])
      ensures r ==> store[..] == old(store[..])[key := defaultValue] && indexes[..] == old(indexes[..])[key := 0]
      ensures Keys() == old(Keys()) - {key}
    {
      if key >= count {
        return false;
      }
      store[key] := defaultValue;
      indexes[key] := 0;
      return true;
    }

    /** `TryGetValue(key)`: the stored value when the key is present, else the default. */
    function TryGetValue(key: int): (r: (bool, T))
      reads this, store, indexes
      requires Valid() && 0 <= key < count
      ensures r.0 <==> key in Keys()
      ensures r.0 ==> r.1 == store[key]
      ensures !r.0 ==> r.1 == defaultValue
    {
      if indexes[key] == 0 then (false, defaultValue) else (true, store[key])
    }

    /** The indexer's getter: the slot's value, present or not. */
    function Get(key: int): (r: T)
      reads this, store, indexes
      requires Valid() && 0 <= key < count
      ensures r == store[key]
    {
      store[key]
    }

    /** The indexer's setter: writes the value without marking the key present. */
    method Set(key: int, value: T)
      requires Valid() && 0 <= key < count
      modifies store
      ensures Valid() && store[..] == old(store[..])[key := value] && Keys() == old(Keys())
    {
      store[key] := value;
    }

    /** `Clear`: fresh arrays of the same size, so no key is present. */
    method Clear()
      requires Valid()
      modifies this
      ensures Valid() && Keys() == {}
      ensures forall k | 0 <= k < count :: store[k] == defaultValue
      ensures fresh(store) && fresh(indexes)
    {
      store := new T[count](_ => defaultValue);
      indexes := new int[count](_ => 0);
    }

    /** The enumerator: every present key with its value, by ascending key. */
    method Entries() returns (r: seq<(int, T)>)
      requires Valid()
      ensures r == Enumerated(store[..], indexes[..], count)
    {
      r := [];
      for i := 0 to store.Length
        invariant r == Enumerated(store[..], indexes[..], i)
      {
        if ContainsKey(i) {
          r := r + [(i, store[i])];
        }
      }
    }

    /** `Keys`: the keys of the enumerated pairs, in order. */
    method KeyList() returns (r: seq<int>)
      requires Valid()
      ensures |r| == |Enumerated(store[..], indexes[..], count)|
      ensures forall i | 0 <= i < |r| :: r[i] == Enumerated(store[..], indexes[..], count)[i].0
    {
      var entries := Entries();
      r := [];
      for i := 0 to |entries|
        invariant |r| == i && forall j | 0 <= j < i :: r[j] == entries[j].0
      {
        r := r + [entries[i].0];
      }
    }

    /** `Values`: the values of the enumerated pairs, in order. */
    method ValueList() returns (r: seq<T>)
      requires Valid()
      ensures |r| == |Enumerated(store[..], indexes[..], count)|
      ensures forall i | 0 <= i < |r| :: r[i] == Enumerated(store[..], indexes[..], count)[i].1
    {
      var entries := Entries();
      r := [];
      for i := 0 to |entries|
        invariant |r| == i && forall j | 0 <= j < i :: r[j] == entries[j].1
      {
        r := r + [entries[i].1];
      }
    }
  }
}
