/**
 * The SBTree index as its callers observe it: an ordered map from int keys
 * to values. The leaf level of the tree is held as one strictly key-sorted
 * sequence of entries; the ghost map `Contents()` is the abstraction every
 * operation is specified against.
 */
module SBTrees {
  import opened OrderedMaps

  class SBTree<V> {
    /** Every entry of every leaf, in leaf-chain order. */
    var entries: seq<Entry<V>>

    ghost predicate Valid()
      reads this
    {
      StrictlySorted(entries)
    }

    /** The map the index holds. */
    ghost function Contents(): map<int, V>
      reads this
    {
      ToMap(entries)
    }

    /** `create`: a new tree holds no entries. */
    constructor ()
      ensures Valid() && Contents() == map[]
    {
      entries := [];
    }

    /**
     * Binary search for the position of the first entry past `key`: every
     * entry before it is short of `key`, every entry from it on is past it.
     */
    method LowerBound(key: int, inclusive: bool) returns (i: nat)
      requires Valid()
      ensures i <= |entries|
      ensures forall j :: 0 <= j < i ==> !After(entries[j].key, key, inclusive)
      ensures forall j :: i <= j < |entries| ==> After(entries[j].key, key, inclusive)
    {
      var lo, hi := 0, |entries|;
      while lo < hi
        invariant 0 <= lo <= hi <= |entries|
        invariant forall j :: 0 <= j < lo ==> !After(entries[j].key, key, inclusive)
        invariant forall j :: hi <= j < |entries| ==> After(entries[j].key, key, inclusive)
      {
        var mid := (lo + hi) / 2;
        if After(entries[mid].key, key, inclusive) {
          hi := mid;
        } else {
          lo := mid + 1;
        }
      }
      i := lo;
    }

    /** `get`: the value stored under `key`, or nothing when the key is absent. */
    method Get(key: int) returns (r: Option<V>)
      requires Valid()
      ensures r == Lookup(Contents(), key)
    {
      var i := LowerBound(key, true);
      if i < |entries| && entries[i].key == key {
        ToMapValue(entries, i);
        r := Some(entries[i].value);
      } else {
        ToMapKeysWhere(entries, Limit(key, true), Limit(key, true), false);
        r := None;
      }
    }

    /** `put`: stores `value` under `key`, overwriting the value of a key already present. */
    method Put(key: int, value: V)
      requires Valid()
      modifies this
      ensures Valid()
      ensures Contents() == old(Contents())[key := value]
    {
      var i := LowerBound(key, true);
      if i < |entries| && entries[i].key == key {
        ReplaceAt(entries, i, value);
        entries := entries[i := Entry(key, value)];
      } else {
        InsertAt(entries, i, Entry(key, value));
        entries := entries[..i] + [Entry(key, value)] + entries[i..];
      }
    }

    /** `remove`: deletes `key` and returns the value it held, or returns nothing and changes nothing. */
    method Remove(key: int) returns (r: Option<V>)
      requires Valid()
      modifies this
      ensures Valid()
      ensures r == Lookup(old(Contents()), key)
      ensures Contents() == old(Contents()) - {key}
    {
      var i := LowerBound(key, true);
      if i < |entries| && entries[i].key == key {
        ToMapValue(entries, i);
        r := Some(entries[i].value);
        DeleteAt(entries, i);
        entries := entries[..i] + entries[i + 1..];
      } else {
        ToMapKeysWhere(entries, Limit(key, true), Limit(key, true), false);
        r := None;
        assert Contents() == Contents() - {key};
      }
    }

    /** `clear`: the tree is left empty. */
    method Clear()
      requires Valid()
      modifies this
      ensures Valid() && Contents() == map[]
    {
      entries := [];
    }

    /**
     * `getValuesMajor`: walks forward from the first key past `fromKey` and
     * collects values until `maxCount` are collected or the entries end.
     */
    method GetValuesMajor(fromKey: int, inclusive: bool, maxCount: nat) returns (r: seq<V>)
      requires Valid()
      ensures r == FirstValues(TailMap(Contents(), fromKey, inclusive), maxCount)
    {
      var lo := LowerBound(fromKey, inclusive);
      var i := lo;
      r := [];
      while i < |entries| && |r| < maxCount
        invariant lo <= i <= |entries|
        invariant |r| <= maxCount
        invariant r == Values(entries[lo..i])
      {
        r := r + [entries[i].value];
        i := i + 1;
      }
      TailScan(entries, lo, i, fromKey, inclusive, maxCount);
    }

    /**
     * `getValuesMinor`: walks backward from the last key short of `toKey`
     * and collects values until `maxCount` are collected or the entries end.
     */
    method GetValuesMinor(toKey: int, inclusive: bool, maxCount: nat) returns (r: seq<V>)
      requires Valid()
      ensures r == FirstValues(HeadMapDescending(Contents(), toKey, inclusive), maxCount)
    {
      var hi := LowerBound(toKey, !inclusive);
      var i := hi;
      r := [];
      while 0 < i && |r| < maxCount
        invariant 0 <= i <= hi
        invariant |r| == hi - i <= maxCount
        invariant forall j :: 0 <= j < |r| ==> r[j] == entries[hi - 1 - j].value
      {
        i := i - 1;
        r := r + [entries[i].value];
      }
      HeadScan(entries, hi, toKey, inclusive, r, maxCount);
    }

    /**
     * `getValuesBetween`: walks forward from the first key past `fromKey`,
     * collecting values while the keys stay short of `toKey`, until
     * `maxCount` are collected or the entries end.
     */
    method GetValuesBetween(fromKey: int, fromInclusive: bool, toKey: int, toInclusive: bool, maxCount: nat)
      returns (r: seq<V>)
      requires Valid()
      ensures r == FirstValues(SubMap(Contents(), fromKey, fromInclusive, toKey, toInclusive), maxCount)
    {
      var lo := LowerBound(fromKey, fromInclusive);
      ghost var hi := BeforeEnd(entries, lo, toKey, toInclusive);
      var i := lo;
      r := [];
      while i < |entries| && |r| < maxCount && Before(entries[i].key, toKey, toInclusive)
        invariant lo <= i <= hi
        invariant |r| <= maxCount
        invariant r == Values(entries[lo..i])
      {
        r := r + [entries[i].value];
        i := i + 1;
      }
      BetweenScan(entries, lo, hi, i, fromKey, fromInclusive, toKey, toInclusive, maxCount);
    }
  }
}
