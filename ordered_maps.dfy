/**
 * The ordered-map vocabulary the SBTree index is specified in: entries,
 * strictly key-sorted entry sequences, the map such a sequence denotes, and
 * the reference range views of a sorted map (the `tailMap`, `headMap(..)
 * .descendingMap()` and `subMap` views of java.util.TreeMap) that the range
 * scans of the index are compared against.
 */
module OrderedMaps {

  datatype Option<T> = None | Some(value: T)

  /** One (key, value) pair held by the index. */
  datatype Entry<V> = Entry(key: int, value: V)

  /** One side of a key range; `Unbounded` leaves that side open. */
  datatype Bound = Unbounded | Limit(key: int, inclusive: bool)

  predicate StrictlySorted<V>(s: seq<Entry<V>>)
  {
    forall i, j :: 0 <= i < j < |s| ==> s[i].key < s[j].key
  }

  predicate Distinct<T(==)>(s: seq<T>)
  {
    forall i, j :: 0 <= i < j < |s| ==> s[i] != s[j]
  }

  /** The map an entry sequence denotes (an earlier entry wins over a later one with the same key). */
  function ToMap<V>(s: seq<Entry<V>>): map<int, V>
  {
    if s == [] then map[] else ToMap(s[1..])[s[0].key := s[0].value]
  }

  function Lookup<V>(m: map<int, V>, key: int): Option<V>
  {
    if key in m then Some(m[key]) else None
  }

  function Values<V>(s: seq<Entry<V>>): seq<V>
  {
    seq(|s|, i requires 0 <= i < |s| => s[i].value)
  }

  function Reversed<T>(s: seq<T>): seq<T>
  {
    seq(|s|, i requires 0 <= i < |s| => s[|s| - 1 - i])
  }

  /** The values of the first min(n, |s|) entries of `s`: what a scan capped at `n` yields. */
  function FirstValues<V>(s: seq<Entry<V>>, n: nat): seq<V>
  {
    Values(s[..if n < |s| then n else |s|])
  }

  /** `key` is past `bound`: greater than it, or equal to it when the bound is inclusive. */
  predicate After(key: int, bound: int, inclusive: bool)
  {
    bound < key || (inclusive && key == bound)
  }

  /** `key` is short of `bound`: less than it, or equal to it when the bound is inclusive. */
  predicate Before(key: int, bound: int, inclusive: bool)
  {
    key < bound || (inclusive && key == bound)
  }

  predicate InRange(key: int, lower: Bound, upper: Bound)
  {
    (lower.Unbounded? || After(key, lower.key, lower.inclusive)) &&
    (upper.Unbounded? || Before(key, upper.key, upper.inclusive))
  }

  /** The part of `m` whose keys lie between `lower` and `upper`. */
  function Slice<V>(m: map<int, V>, lower: Bound, upper: Bound): map<int, V>
  {
    map k | k in m && InRange(k, lower, upper) :: m[k]
  }

  lemma {:induction false} MinKeyExists(keys: set<int>, x: int)
    requires x in keys
    ensures exists k :: k in keys && forall j :: j in keys ==> k <= j
    decreases keys
  {
    if exists y :: y in keys && y < x {
      var y :| y in keys && y < x;
      var rest := keys - {x};
      MinKeyExists(rest, y);
      var m :| m in rest && forall j :: j in rest ==> m <= j;
      assert m <= y < x;
      assert forall j :: j in keys ==> j == x || j in rest;
      assert m in keys && forall j :: j in keys ==> m <= j;
    } else {
      assert forall j :: j in keys ==> x <= j;
    }
  }

  /** The least element of a set, given one of its elements. */
  ghost function MinKey(keys: set<int>, x: int): (k: int)
    requires x in keys
    ensures k in keys && forall j :: j in keys ==> k <= j
  {
    MinKeyExists(keys, x);
    var k :| k in keys && forall j :: j in keys ==> k <= j;
    k
  }

  /** Every entry's key is a key of the map the sequence denotes. */
  lemma {:induction false} ToMapHasKeys<V>(s: seq<Entry<V>>)
    ensures forall i :: 0 <= i < |s| ==> s[i].key in ToMap(s)
  {
    if s != [] {
      ToMapHasKeys(s[1..]);
      assert forall i :: 1 <= i < |s| ==> s[i] == s[1..][i - 1];
    }
  }

  /** If every entry's key is (or every one is not) within a range, so is every key of the map. */
  lemma {:induction false} ToMapKeysWhere<V>(s: seq<Entry<V>>, lower: Bound, upper: Bound, inside: bool)
    requires forall i :: 0 <= i < |s| ==> InRange(s[i].key, lower, upper) == inside
    ensures forall k :: k in ToMap(s) ==> InRange(k, lower, upper) == inside
  {
    if s != [] {
      assert forall i :: 0 <= i < |s[1..]| ==> s[1..][i] == s[i + 1];
      ToMapKeysWhere(s[1..], lower, upper, inside);
    }
  }

  /** Every key of the map is the key of some entry. */
  lemma {:induction false} ToMapKeyAt<V>(s: seq<Entry<V>>, k: int)
    requires k in ToMap(s)
    ensures exists i :: 0 <= i < |s| && s[i].key == k
  {
    if s[0].key != k {
      assert k in ToMap(s[1..]);
      ToMapKeyAt(s[1..], k);
      var i :| 0 <= i < |s[1..]| && s[1..][i].key == k;
      assert s[i + 1].key == k;
    }
  }

  lemma {:induction false} ToMapValue<V>(s: seq<Entry<V>>, i: nat)
    requires StrictlySorted(s) && i < |s|
    ensures s[i].key in ToMap(s) && ToMap(s)[s[i].key] == s[i].value
  {
    if i > 0 {
      assert s[1..][i - 1] == s[i];
      ToMapValue(s[1..], i - 1);
    }
  }

  /** Removing the first entry of a strictly sorted sequence removes exactly its key from the map. */
  lemma ToMapRest<V>(s: seq<Entry<V>>)
    requires StrictlySorted(s) && s != []
    ensures StrictlySorted(s[1..])
    ensures s[0].key !in ToMap(s[1..]) && ToMap(s[1..]) == ToMap(s) - {s[0].key}
  {
    ToMapKeysWhere(s[1..], Limit(s[0].key, false), Unbounded, true);
  }

  /** Concatenation is map union in which the left part wins. */
  lemma {:induction false} ToMapConcat<V>(a: seq<Entry<V>>, b: seq<Entry<V>>)
    ensures ToMap(a + b) == ToMap(b) + ToMap(a)
  {
    if a == [] {
      assert a + b == b;
    } else {
      assert (a + b)[1..] == a[1..] + b;
      ToMapConcat(a[1..], b);
    }
  }

  /** A strictly sorted sequence is determined by the map it denotes. */
  lemma {:induction false} SortedUnique<V>(s: seq<Entry<V>>, t: seq<Entry<V>>)
    requires StrictlySorted(s) && StrictlySorted(t) && ToMap(s) == ToMap(t)
    ensures s == t
  {
    ToMapHasKeys(s);
    ToMapHasKeys(t);
    if s != [] && t != [] {
      ToMapKeysWhere(s, Limit(s[0].key, true), Unbounded, true);
      ToMapKeysWhere(t, Limit(t[0].key, true), Unbounded, true);
      assert s[0].key == t[0].key;
      ToMapValue(s, 0);
      ToMapValue(t, 0);
      ToMapRest(s);
      ToMapRest(t);
      SortedUnique(s[1..], t[1..]);
      assert s == [s[0]] + s[1..];
      assert t == [t[0]] + t[1..];
    }
  }

  /** Putting an entry with a smaller key in front keeps the sequence sorted and adds that key to the map. */
  lemma ConsSorted<V>(e: Entry<V>, tail: seq<Entry<V>>)
    requires StrictlySorted(tail)
    requires forall k :: k in ToMap(tail) ==> e.key < k
    ensures StrictlySorted([e] + tail)
    ensures ToMap([e] + tail) == ToMap(tail)[e.key := e.value]
  {
    ToMapHasKeys(tail);
    assert ([e] + tail)[1..] == tail;
  }

  /** The entries of `m` in ascending key order: the iteration order of a sorted map. */
  ghost function Ascending<V>(m: map<int, V>): (s: seq<Entry<V>>)
    ensures StrictlySorted(s) && ToMap(s) == m
    decreases m.Keys
  {
    if forall k :: k !in m then
      assert m == map[];
      []
    else
      var x :| x in m;
      var k := MinKey(m.Keys, x);
      var rest := m - {k};
      assert rest.Keys < m.Keys;
      var tail := Ascending(rest);
      ConsSorted(Entry(k, m[k]), tail);
      assert rest[k := m[k]] == m;
      [Entry(k, m[k])] + tail
  }

  lemma AscendingMembers<V>(m: map<int, V>)
    ensures forall e :: e in Ascending(m) <==> e.key in m && m[e.key] == e.value
  {
    var s := Ascending(m);
    forall e | e in s
      ensures e.key in m && m[e.key] == e.value
    {
      var i :| 0 <= i < |s| && s[i] == e;
      ToMapValue(s, i);
    }
    forall e: Entry<V> | e.key in m && m[e.key] == e.value
      ensures e in s
    {
      ToMapKeyAt(s, e.key);
      var i :| 0 <= i < |s| && s[i].key == e.key;
      ToMapValue(s, i);
      assert s[i] == e;
    }
  }

  /** Slicing a union whose middle part alone lies in the range gives that middle part. */
  lemma SliceOfUnion<V>(ma: map<int, V>, ms: map<int, V>, mb: map<int, V>, lower: Bound, upper: Bound)
    requires forall k :: k in ma ==> !InRange(k, lower, upper)
    requires forall k :: k in ms ==> InRange(k, lower, upper)
    requires forall k :: k in mb ==> !InRange(k, lower, upper)
    ensures Slice((ma + ms) + mb, lower, upper) == ms
  {
    var slice := Slice((ma + ms) + mb, lower, upper);
    forall k | k in ms
      ensures k in slice && slice[k] == ms[k]
    {
      assert k !in mb;
    }
    forall k | k in slice
      ensures k in ms
    {
      assert k !in mb && k !in ma;
    }
  }

  // SplitThree, SplitAround, SplitBefore, UpdateUnder and RemoveUpdated are
  // one-line sequence and map identities with empty bodies. Each is stated as
  // a lemma of its own so that its caller gets the fact about exactly the
  // terms it names, which keeps the solver from exploring the larger terms.

  /** `s` cut into three consecutive slices. */
  lemma SplitThree<T>(s: seq<T>, lo: nat, hi: nat)
    requires lo <= hi <= |s|
    ensures s == s[0..lo] + (s[lo..hi] + s[hi..|s|])
  {
  }

  lemma SplitAround<T>(s: seq<T>, i: nat, x: T)
    requires i < |s|
    ensures s == s[..i] + ([s[i]] + s[i + 1..])
    ensures s[i := x] == s[..i] + ([x] + s[i + 1..])
  {
  }

  lemma SplitBefore<T>(s: seq<T>, i: nat, x: T)
    requires i <= |s|
    ensures s == s[..i] + s[i..]
    ensures s[..i] + [x] + s[i..] == s[..i] + ([x] + s[i..])
  {
  }

  lemma ToMapConcat3<V>(a: seq<Entry<V>>, b: seq<Entry<V>>, c: seq<Entry<V>>)
    ensures ToMap(a + (b + c)) == (ToMap(c) + ToMap(b)) + ToMap(a)
  {
    ToMapConcat(a, b + c);
    ToMapConcat(b, c);
  }

  lemma ToMapSplit<V>(s: seq<Entry<V>>, lo: nat, hi: nat)
    requires lo <= hi <= |s|
    ensures ToMap(s) == (ToMap(s[hi..|s|]) + ToMap(s[lo..hi])) + ToMap(s[0..lo])
  {
    SplitThree(s, lo, hi);
    ToMapConcat3(s[0..lo], s[lo..hi], s[hi..|s|]);
  }

  /** The key-range fact of ToMapKeysWhere for a slice `s[a..b]`. */
  lemma SliceKeysWhere<V>(s: seq<Entry<V>>, a: nat, b: nat, lower: Bound, upper: Bound, inside: bool)
    requires a <= b <= |s|
    requires forall j :: a <= j < b ==> InRange(s[j].key, lower, upper) == inside
    ensures forall k :: k in ToMap(s[a..b]) ==> InRange(k, lower, upper) == inside
  {
    assert forall i :: 0 <= i < b - a ==> s[a..b][i] == s[a + i];
    ToMapKeysWhere(s[a..b], lower, upper, inside);
  }

  lemma SortedSlice<V>(s: seq<Entry<V>>, lo: nat, hi: nat)
    requires StrictlySorted(s) && lo <= hi <= |s|
    ensures StrictlySorted(s[lo..hi])
  {
    var t := s[lo..hi];
    assert forall j :: 0 <= j < |t| ==> t[j] == s[lo + j];
  }

  /** `s[lo..hi]` is exactly the part of strictly sorted `s` within the range, in ascending order. */
  lemma SliceOfSorted<V>(s: seq<Entry<V>>, lo: nat, hi: nat, lower: Bound, upper: Bound)
    requires StrictlySorted(s) && lo <= hi <= |s|
    requires forall j :: 0 <= j < lo ==> !InRange(s[j].key, lower, upper)
    requires forall j :: lo <= j < hi ==> InRange(s[j].key, lower, upper)
    requires forall j :: hi <= j < |s| ==> !InRange(s[j].key, lower, upper)
    ensures Ascending(Slice(ToMap(s), lower, upper)) == s[lo..hi]
  {
    ToMapSplit(s, lo, hi);
    SliceKeysWhere(s, 0, lo, lower, upper, false);
    SliceKeysWhere(s, lo, hi, lower, upper, true);
    SliceKeysWhere(s, hi, |s|, lower, upper, false);
    var ma, ms, mb := ToMap(s[hi..|s|]), ToMap(s[lo..hi]), ToMap(s[0..lo]);
    SliceOfUnion(ma, ms, mb, lower, upper);
    SortedSlice(s, lo, hi);
    SortedUnique(Ascending(Slice(ToMap(s), lower, upper)), s[lo..hi]);
  }

  lemma ToMapCons<V>(e: Entry<V>, t: seq<Entry<V>>)
    ensures ToMap([e] + t) == ToMap(t)[e.key := e.value]
  {
    assert ([e] + t)[1..] == t;
  }

  lemma UpdateUnder<V>(a: map<int, V>, b: map<int, V>, k: int, v: V)
    requires k !in b
    ensures a[k := v] + b == (a + b)[k := v]
  {
  }

  lemma RemoveUpdated<V>(m: map<int, V>, k: int, v: V)
    requires k !in m
    ensures m[k := v] - {k} == m
  {
  }

  lemma PrefixKeysBelow<V>(s: seq<Entry<V>>, i: nat, key: int)
    requires i <= |s|
    requires forall j :: 0 <= j < i ==> s[j].key < key
    ensures forall k :: k in ToMap(s[..i]) ==> k < key
  {
    assert forall j :: 0 <= j < i ==> s[..i][j] == s[j];
    ToMapKeysWhere(s[..i], Limit(key, true), Unbounded, false);
  }

  lemma SuffixKeysAbove<V>(s: seq<Entry<V>>, i: nat, key: int)
    requires i <= |s|
    requires forall j :: i <= j < |s| ==> key < s[j].key
    ensures forall k :: k in ToMap(s[i..]) ==> key < k
  {
    assert forall j :: 0 <= j < |s| - i ==> s[i..][j] == s[i + j];
    ToMapKeysWhere(s[i..], Limit(key, false), Unbounded, true);
  }

  lemma InsertSorted<V>(s: seq<Entry<V>>, i: nat, e: Entry<V>)
    requires StrictlySorted(s) && i <= |s|
    requires forall j :: 0 <= j < i ==> s[j].key < e.key
    requires forall j :: i <= j < |s| ==> e.key < s[j].key
    ensures StrictlySorted(s[..i] + [e] + s[i..])
  {
    var t := s[..i] + [e] + s[i..];
    forall j, k | 0 <= j < k < |t|
      ensures t[j].key < t[k].key
    {
      if k < i {
        assert t[j] == s[j] && t[k] == s[k];
      } else if k == i {
        assert t[j] == s[j];
      } else if j < i {
        assert t[j] == s[j] && t[k] == s[k - 1];
      } else if j == i {
        assert t[k] == s[k - 1];
      } else {
        assert t[j] == s[j - 1] && t[k] == s[k - 1];
      }
    }
  }

  /** Putting `e` between `before` and `after`, where `before` does not hold its key, stores its value under its key. */
  lemma ToMapInsert<V>(before: seq<Entry<V>>, e: Entry<V>, after: seq<Entry<V>>)
    requires e.key !in ToMap(before)
    ensures ToMap(before + ([e] + after)) == ToMap(before + after)[e.key := e.value]
  {
    ToMapConcat(before, after);
    ToMapConcat(before, [e] + after);
    ToMapCons(e, after);
    UpdateUnder(ToMap(after), ToMap(before), e.key, e.value);
  }

  /** Swapping `e` for `f` with the same key, between parts without that key, removes nothing else. */
  lemma ToMapReplace<V>(before: seq<Entry<V>>, e: Entry<V>, f: Entry<V>, after: seq<Entry<V>>)
    requires e.key == f.key && e.key !in ToMap(before)
    ensures ToMap(before + ([f] + after)) == ToMap(before + ([e] + after))[e.key := f.value]
  {
    ToMapInsert(before, e, after);
    ToMapInsert(before, f, after);
  }

  /** Dropping `e` from between parts without its key removes exactly its key. */
  lemma ToMapDelete<V>(before: seq<Entry<V>>, e: Entry<V>, after: seq<Entry<V>>)
    requires e.key !in ToMap(before) && e.key !in ToMap(after)
    ensures ToMap(before + after) == ToMap(before + ([e] + after)) - {e.key}
  {
    ToMapConcat(before, after);
    ToMapInsert(before, e, after);
    RemoveUpdated(ToMap(before + after), e.key, e.value);
  }

  lemma InsertMap<V>(s: seq<Entry<V>>, i: nat, e: Entry<V>)
    requires i <= |s|
    requires forall j :: 0 <= j < i ==> s[j].key < e.key
    ensures ToMap(s[..i] + [e] + s[i..]) == ToMap(s)[e.key := e.value]
  {
    var before, after := s[..i], s[i..];
    SplitBefore(s, i, e);
    PrefixKeysBelow(s, i, e.key);
    ToMapInsert(before, e, after);
  }

  /** Inserting an entry at the position its key sorts to keeps the sequence sorted and adds the entry to the map. */
  lemma InsertAt<V>(s: seq<Entry<V>>, i: nat, e: Entry<V>)
    requires StrictlySorted(s) && i <= |s|
    requires forall j :: 0 <= j < i ==> s[j].key < e.key
    requires forall j :: i <= j < |s| ==> e.key < s[j].key
    ensures StrictlySorted(s[..i] + [e] + s[i..])
    ensures ToMap(s[..i] + [e] + s[i..]) == ToMap(s)[e.key := e.value]
  {
    InsertSorted(s, i, e);
    InsertMap(s, i, e);
  }

  lemma ReplaceMap<V>(s: seq<Entry<V>>, i: nat, v: V)
    requires i < |s|
    requires forall j :: 0 <= j < i ==> s[j].key < s[i].key
    ensures ToMap(s[i := Entry(s[i].key, v)]) == ToMap(s)[s[i].key := v]
  {
    var e := Entry(s[i].key, v);
    var before, after := s[..i], s[i + 1..];
    SplitAround(s, i, e);
    PrefixKeysBelow(s, i, e.key);
    ToMapReplace(before, s[i], e, after);
  }

  /** Replacing the value of an existing entry keeps the sequence sorted and overwrites that key in the map. */
  lemma ReplaceAt<V>(s: seq<Entry<V>>, i: nat, v: V)
    requires StrictlySorted(s) && i < |s|
    ensures StrictlySorted(s[i := Entry(s[i].key, v)])
    ensures ToMap(s[i := Entry(s[i].key, v)]) == ToMap(s)[s[i].key := v]
  {
    var t := s[i := Entry(s[i].key, v)];
    assert forall j :: 0 <= j < |s| ==> t[j].key == s[j].key;
    ReplaceMap(s, i, v);
  }

  lemma DeleteSorted<V>(s: seq<Entry<V>>, i: nat)
    requires StrictlySorted(s) && i < |s|
    ensures StrictlySorted(s[..i] + s[i + 1..])
  {
    var t := s[..i] + s[i + 1..];
    forall j, l | 0 <= j < l < |t|
      ensures t[j].key < t[l].key
    {
      if l < i {
        assert t[j] == s[j] && t[l] == s[l];
      } else if j < i {
        assert t[j] == s[j] && t[l] == s[l + 1];
      } else {
        assert t[j] == s[j + 1] && t[l] == s[l + 1];
      }
    }
  }

  lemma DeleteMap<V>(s: seq<Entry<V>>, i: nat)
    requires i < |s|
    requires forall j :: 0 <= j < i ==> s[j].key < s[i].key
    requires forall j :: i < j < |s| ==> s[i].key < s[j].key
    ensures ToMap(s[..i] + s[i + 1..]) == ToMap(s) - {s[i].key}
  {
    var k := s[i].key;
    var before, after := s[..i], s[i + 1..];
    SplitAround(s, i, s[i]);
    PrefixKeysBelow(s, i, k);
    SuffixKeysAbove(s, i + 1, k);
    ToMapDelete(before, s[i], after);
  }

  /** Deleting an entry keeps the sequence sorted and removes exactly its key from the map. */
  lemma DeleteAt<V>(s: seq<Entry<V>>, i: nat)
    requires StrictlySorted(s) && i < |s|
    ensures StrictlySorted(s[..i] + s[i + 1..])
    ensures ToMap(s[..i] + s[i + 1..]) == ToMap(s) - {s[i].key}
  {
    DeleteSorted(s, i);
    DeleteMap(s, i);
  }

  /**
   * The first position at or after `i` whose key is not short of `bound`;
   * every key from `i` up to it is short of the bound.
   */
  ghost function BeforeEnd<V>(s: seq<Entry<V>>, i: nat, bound: int, inclusive: bool): (hi: nat)
    requires i <= |s|
    ensures i <= hi <= |s|
    ensures forall j :: i <= j < hi ==> Before(s[j].key, bound, inclusive)
    ensures hi < |s| ==> !Before(s[hi].key, bound, inclusive)
    decreases |s| - i
  {
    if i == |s| || !Before(s[i].key, bound, inclusive) then i
    else BeforeEnd(s, i + 1, bound, inclusive)
  }

  /** The values of `s[lo..i]` are the first `n` values of `t == s[lo..hi]` when the scan stopped at `hi` or after `n`. */
  lemma CappedSlice<V>(t: seq<Entry<V>>, s: seq<Entry<V>>, lo: nat, i: nat, hi: nat, n: nat)
    requires lo <= i <= hi <= |s| && t == s[lo..hi]
    requires i - lo <= n && (i == hi || i - lo == n)
    ensures Values(s[lo..i]) == FirstValues(t, n)
  {
    assert t[..i - lo] == s[lo..i];
  }

  /** Values read backward from position `hi` of `s`, as many as `n` allow, are the first `n` values of `t`, the reversal of `s[0..hi]`. */
  lemma BackwardValues<V>(t: seq<Entry<V>>, s: seq<Entry<V>>, hi: nat, r: seq<V>, n: nat)
    requires hi <= |s| && t == Reversed(s[0..hi])
    requires |r| <= n && |r| <= hi && (|r| == hi || |r| == n)
    requires forall j :: 0 <= j < |r| ==> r[j] == s[hi - 1 - j].value
    ensures r == FirstValues(t, n)
  {
    var prefix := t[..|r|];
    assert forall j :: 0 <= j < |r| ==> prefix[j] == s[hi - 1 - j];
  }

  /** The entries of `m` with keys past `fromKey`, ascending: TreeMap.tailMap(fromKey, inclusive). */
  ghost function TailMap<V>(m: map<int, V>, fromKey: int, inclusive: bool): seq<Entry<V>>
  {
    Ascending(Slice(m, Limit(fromKey, inclusive), Unbounded))
  }

  /** The entries of `m` with keys short of `toKey`, descending: TreeMap.headMap(toKey, inclusive).descendingMap(). */
  ghost function HeadMapDescending<V>(m: map<int, V>, toKey: int, inclusive: bool): seq<Entry<V>>
  {
    Reversed(Ascending(Slice(m, Unbounded, Limit(toKey, inclusive))))
  }

  /**
   * The entries of `m` between the two bounds, ascending: TreeMap.subMap(fromKey,
   * fromInclusive, toKey, toInclusive). Where TreeMap.subMap throws
   * IllegalArgumentException for `fromKey > toKey`, this view is empty
   * (SubMapEmptyWhenReversed), which is what the index's between-scan returns.
   */
  ghost function SubMap<V>(m: map<int, V>, fromKey: int, fromInclusive: bool, toKey: int, toInclusive: bool): seq<Entry<V>>
  {
    Ascending(Slice(m, Limit(fromKey, fromInclusive), Limit(toKey, toInclusive)))
  }

  /**
   * A forward scan of strictly sorted `s` that starts at the first key past
   * `fromKey` and stops at the end or after `n` values yields the capped tail map.
   */
  lemma TailScan<V>(s: seq<Entry<V>>, lo: nat, i: nat, fromKey: int, inclusive: bool, n: nat)
    requires StrictlySorted(s) && lo <= i <= |s|
    requires forall j :: 0 <= j < lo ==> !After(s[j].key, fromKey, inclusive)
    requires forall j :: lo <= j < |s| ==> After(s[j].key, fromKey, inclusive)
    requires i - lo <= n && (i == |s| || i - lo == n)
    ensures Values(s[lo..i]) == FirstValues(TailMap(ToMap(s), fromKey, inclusive), n)
  {
    var lower := Limit(fromKey, inclusive);
    assert forall j :: 0 <= j < lo ==> !InRange(s[j].key, lower, Unbounded);
    assert forall j :: lo <= j < |s| ==> InRange(s[j].key, lower, Unbounded);
    SliceOfSorted(s, lo, |s|, lower, Unbounded);
    CappedSlice(TailMap(ToMap(s), fromKey, inclusive), s, lo, i, |s|, n);
  }

  /**
   * A backward scan of strictly sorted `s` that starts at the last key short
   * of `toKey` and stops at the front or after `n` values yields the capped
   * descending head map.
   */
  lemma HeadScan<V>(s: seq<Entry<V>>, hi: nat, toKey: int, inclusive: bool, r: seq<V>, n: nat)
    requires StrictlySorted(s) && hi <= |s|
    requires forall j :: 0 <= j < hi ==> Before(s[j].key, toKey, inclusive)
    requires forall j :: hi <= j < |s| ==> !Before(s[j].key, toKey, inclusive)
    requires |r| <= n && |r| <= hi && (|r| == hi || |r| == n)
    requires forall j :: 0 <= j < |r| ==> r[j] == s[hi - 1 - j].value
    ensures r == FirstValues(HeadMapDescending(ToMap(s), toKey, inclusive), n)
  {
    var upper := Limit(toKey, inclusive);
    assert forall j :: 0 <= j < hi ==> InRange(s[j].key, Unbounded, upper);
    assert forall j :: hi <= j < |s| ==> !InRange(s[j].key, Unbounded, upper);
    SliceOfSorted(s, 0, hi, Unbounded, upper);
    BackwardValues(HeadMapDescending(ToMap(s), toKey, inclusive), s, hi, r, n);
  }

  /**
   * A forward scan of strictly sorted `s` from the first key past `fromKey`
   * that stops at the first key not short of `toKey`, at the end, or after
   * `n` values yields the capped sub map.
   */
  lemma BetweenScan<V>(s: seq<Entry<V>>, lo: nat, hi: nat, i: nat, fromKey: int, fromInclusive: bool,
                       toKey: int, toInclusive: bool, n: nat)
    requires StrictlySorted(s) && lo <= i <= hi <= |s|
    requires forall j :: 0 <= j < lo ==> !After(s[j].key, fromKey, fromInclusive)
    requires forall j :: lo <= j < |s| ==> After(s[j].key, fromKey, fromInclusive)
    requires forall j :: lo <= j < hi ==> Before(s[j].key, toKey, toInclusive)
    requires hi < |s| ==> !Before(s[hi].key, toKey, toInclusive)
    requires i - lo <= n && (i == hi || i - lo == n)
    ensures Values(s[lo..i]) == FirstValues(SubMap(ToMap(s), fromKey, fromInclusive, toKey, toInclusive), n)
  {
    forall j | hi <= j < |s|
      ensures !Before(s[j].key, toKey, toInclusive)
    {
      assert s[hi].key <= s[j].key;
    }
    SliceOfSorted(s, lo, hi, Limit(fromKey, fromInclusive), Limit(toKey, toInclusive));
    CappedSlice(SubMap(ToMap(s), fromKey, fromInclusive, toKey, toInclusive), s, lo, i, hi, n);
  }

  lemma TailMapIsTail<V>(m: map<int, V>, fromKey: int, inclusive: bool)
    ensures StrictlySorted(TailMap(m, fromKey, inclusive))
    ensures forall e :: e in TailMap(m, fromKey, inclusive) <==>
      e.key in m && m[e.key] == e.value && After(e.key, fromKey, inclusive)
  {
    AscendingMembers(Slice(m, Limit(fromKey, inclusive), Unbounded));
  }

  lemma ReversedMembers<T>(a: seq<T>)
    ensures forall x :: x in Reversed(a) <==> x in a
  {
    var r := Reversed(a);
    forall x | x in r
      ensures x in a
    {
      var i :| 0 <= i < |r| && r[i] == x;
      assert a[|a| - 1 - i] == x;
    }
    forall x | x in a
      ensures x in r
    {
      var i :| 0 <= i < |a| && a[i] == x;
      assert r[|a| - 1 - i] == x;
    }
  }

  lemma HeadMapDescendingIsHead<V>(m: map<int, V>, toKey: int, inclusive: bool)
    ensures var h := HeadMapDescending(m, toKey, inclusive);
      forall i, j :: 0 <= i < j < |h| ==> h[i].key > h[j].key
    ensures forall e :: e in HeadMapDescending(m, toKey, inclusive) <==>
      e.key in m && m[e.key] == e.value && Before(e.key, toKey, inclusive)
  {
    var head := Slice(m, Unbounded, Limit(toKey, inclusive));
    AscendingMembers(head);
    ReversedMembers(Ascending(head));
  }

  lemma SubMapIsBetween<V>(m: map<int, V>, fromKey: int, fromInclusive: bool, toKey: int, toInclusive: bool)
    ensures StrictlySorted(SubMap(m, fromKey, fromInclusive, toKey, toInclusive))
    ensures forall e :: e in SubMap(m, fromKey, fromInclusive, toKey, toInclusive) <==>
      e.key in m && m[e.key] == e.value && After(e.key, fromKey, fromInclusive) && Before(e.key, toKey, toInclusive)
  {
    AscendingMembers(Slice(m, Limit(fromKey, fromInclusive), Limit(toKey, toInclusive)));
  }

  /** A two-sided range whose lower key lies above its upper key is empty. */
  lemma SubMapEmptyWhenReversed<V>(m: map<int, V>, fromKey: int, fromInclusive: bool, toKey: int, toInclusive: bool)
    requires fromKey > toKey
    ensures SubMap(m, fromKey, fromInclusive, toKey, toInclusive) == []
  {
    assert Slice(m, Limit(fromKey, fromInclusive), Limit(toKey, toInclusive)) == map[];
  }
}
