/**
 * The abstract view of the LRU cache: the entries between the two sentinel
 * nodes, read from the most recently used (front) to the least recently used
 * (back). Every operation of the cache is specified here as a function on that
 * sequence, and what the cache promises is proved about those functions.
 */
module LruModel {
  import opened Wrappers

  /** The key and value a list node holds. */
  datatype Entry = Entry(key: string, value: string)

  /** The keys present in a recency list. */
  function Keys(s: seq<Entry>): set<string>
  {
    set e | e in s :: e.key
  }

  /** No key occurs twice in the list. */
  predicate DistinctKeys(s: seq<Entry>)
  {
    forall i, j :: 0 <= i < j < |s| ==> s[i].key != s[j].key
  }

  /** The largest number of entries a cache of this capacity can hold. */
  function Bound(capacity: int): nat
  {
    if capacity < 0 then 0 else capacity
  }

  /** What every public operation of the cache keeps. */
  predicate Inv(s: seq<Entry>, capacity: int)
  {
    DistinctKeys(s) && |s| <= Bound(capacity)
  }

  /** The position of the first entry with key `k`. */
  function Find(s: seq<Entry>, k: string): (r: Option<nat>)
    ensures r.Some? ==> r.value < |s| && s[r.value].key == k
    ensures r.Some? ==> forall j :: 0 <= j < r.value ==> s[j].key != k
    ensures r.None? ==> forall j :: 0 <= j < |s| ==> s[j].key != k
  {
    if s == [] then None
    else if s[0].key == k then Some(0)
    else match Find(s[1..], k)
      case None => None
      case Some(i) => Some(i + 1)
  }

  /** The value stored under `k`, as the cache's map reports it. */
  function Lookup(s: seq<Entry>, k: string): (r: Option<string>)
    ensures r.Some? <==> k in Keys(s)
    ensures r.Some? ==> Entry(k, r.value) in s
  {
    match Find(s, k)
    case None => None
    case Some(i) => Some(s[i].value)
  }

  /** The list with the node at position `i` unlinked. */
  function RemoveAt<T>(s: seq<T>, i: nat): (r: seq<T>)
    requires i < |s|
    ensures |r| == |s| - 1
    ensures forall j {:trigger r[j]} :: 0 <= j < |r| ==> r[j] == if j < i then s[j] else s[j + 1]
    ensures forall x :: x in r ==> x in s
  {
    s[..i] + s[i + 1..]
  }

  /** The list with the node at position `i` unlinked and reinserted at the front. */
  function MoveToFront<T>(s: seq<T>, i: nat): (r: seq<T>)
    requires i < |s|
    ensures |r| == |s| && r[0] == s[i]
    ensures forall j {:trigger r[j]} :: 0 < j < |r| ==> r[j] == if j <= i then s[j - 1] else s[j]
  {
    [s[i]] + RemoveAt(s, i)
  }

  /** The order after `Get(k)`: a hit moves to the front, a miss changes nothing. */
  function Touch(s: seq<Entry>, k: string): (r: seq<Entry>)
    ensures |r| == |s|
    ensures k in Keys(s) ==> r[0] == Entry(k, Lookup(s, k).value)
    ensures k !in Keys(s) ==> r == s
  {
    match Find(s, k)
    case None => s
    case Some(i) => MoveToFront(s, i)
  }

  /**
   * The list after `Put(k, v)`: an existing key takes the new value and moves
   * to the front; a new key goes to the front, and if the list then holds
   * more than `capacity` entries its last one is dropped.
   */
  function Put(s: seq<Entry>, capacity: int, k: string, v: string): (r: seq<Entry>)
    ensures |r| > 0 ==> r[0] == Entry(k, v)
  {
    match Find(s, k)
    case Some(i) => [Entry(k, v)] + RemoveAt(s, i)
    case None =>
      var t := [Entry(k, v)] + s;
      if |t| > capacity then t[..|t| - 1] else t
  }

  // ---------------------------------------------------------------------------
  // Facts about keys

  lemma KeyAt(s: seq<Entry>, i: nat)
    requires i < |s|
    ensures s[i].key in Keys(s)
  {
    assert s[i] in s;
  }

  /** Under distinct keys, `Lookup` finds exactly the entries of the list. */
  lemma LookupIsMembership(s: seq<Entry>, k: string, v: string)
    requires DistinctKeys(s)
    ensures Lookup(s, k) == Some(v) <==> Entry(k, v) in s
  {
    if Entry(k, v) in s {
      var j :| 0 <= j < |s| && s[j] == Entry(k, v);
      var i := Find(s, k).value;
      assert i == j;
    }
  }

  /** Two lists with distinct keys that hold the same entries for `k` agree on `k`. */
  lemma SameLookup(r: seq<Entry>, s: seq<Entry>, k: string)
    requires DistinctKeys(r) && DistinctKeys(s)
    requires forall v :: Entry(k, v) in r <==> Entry(k, v) in s
    ensures Lookup(r, k) == Lookup(s, k)
  {
    match Lookup(s, k)
    case Some(v) =>
      LookupIsMembership(s, k, v);
      LookupIsMembership(r, k, v);
    case None =>
  }

  /** Unlinking one node removes its key, and only its key. */
  lemma RemoveAtKeys(s: seq<Entry>, i: nat)
    requires i < |s| && DistinctKeys(s)
    ensures DistinctKeys(RemoveAt(s, i))
    ensures Keys(RemoveAt(s, i)) == Keys(s) - {s[i].key}
  {
    var r := RemoveAt(s, i);
    forall k | k in Keys(r) ensures k in Keys(s) - {s[i].key} {
      var e :| e in r && e.key == k;
      var j :| 0 <= j < |r| && r[j] == e;
      KeyAt(s, if j < i then j else j + 1);
    }
    forall k | k in Keys(s) - {s[i].key} ensures k in Keys(r) {
      var e :| e in s && e.key == k;
      var j :| 0 <= j < |s| && s[j] == e;
      KeyAt(r, if j < i then j else j - 1);
    }
  }

  lemma ConsKeys(e: Entry, s: seq<Entry>)
    ensures Keys([e] + s) == {e.key} + Keys(s)
    ensures DistinctKeys(s) && e.key !in Keys(s) ==> DistinctKeys([e] + s)
  {
    var t := [e] + s;
    forall k | k in Keys(t) ensures k in {e.key} + Keys(s) {
      var x :| x in t && x.key == k;
      if x != e { assert x in s; }
    }
    forall k | k in {e.key} + Keys(s) ensures k in Keys(t) {
      if k != e.key {
        var x :| x in s && x.key == k;
        assert x in t;
      } else {
        assert e in t;
      }
    }
    if DistinctKeys(s) && e.key !in Keys(s) {
      forall i, j | 0 <= i < j < |t| ensures t[i].key != t[j].key {
        if i == 0 { KeyAt(s, j - 1); }
      }
    }
  }

  /** Dropping the last (least recently used) entry removes exactly its key. */
  lemma DropLastKeys(s: seq<Entry>)
    requires s != [] && DistinctKeys(s)
    ensures DistinctKeys(s[..|s| - 1])
    ensures Keys(s[..|s| - 1]) == Keys(s) - {s[|s| - 1].key}
  {
    assert s[..|s| - 1] == RemoveAt(s, |s| - 1);
    RemoveAtKeys(s, |s| - 1);
  }

  /** With distinct keys the number of keys is the number of entries. */
  lemma {:induction false} KeysCount(s: seq<Entry>)
    requires DistinctKeys(s)
    ensures |Keys(s)| == |s|
  {
    if s != [] {
      assert DistinctKeys(s[1..]) by {
        forall i, j | 0 <= i < j < |s| - 1 ensures s[1..][i].key != s[1..][j].key {
          assert s[1..][i] == s[i + 1] && s[1..][j] == s[j + 1];
        }
      }
      KeysCount(s[1..]);
      assert s == [s[0]] + s[1..];
      ConsKeys(s[0], s[1..]);
    }
  }

  // ---------------------------------------------------------------------------
  // Get

  /** `Get` keeps the invariant. */
  lemma TouchPreservesInv(s: seq<Entry>, capacity: int, k: string)
    requires Inv(s, capacity)
    ensures Inv(Touch(s, k), capacity)
  {
    match Find(s, k)
    case None =>
    case Some(i) =>
      RemoveAtKeys(s, i);
      ConsKeys(s[i], RemoveAt(s, i));
  }

  /** `Get` only reorders: the entries are a permutation of the old ones. */
  lemma TouchPermutes(s: seq<Entry>, k: string)
    ensures multiset(Touch(s, k)) == multiset(s)
  {
    match Find(s, k)
    case None =>
    case Some(i) =>
      assert s == s[..i] + [s[i]] + s[i + 1..];
  }

  /** `Get` keeps every key with its value: only the order changes. */
  lemma TouchPreservesLookup(s: seq<Entry>, k: string, k': string)
    requires DistinctKeys(s)
    ensures Lookup(Touch(s, k), k') == Lookup(s, k')
  {
    TouchPreservesInv(s, |s|, k);
    TouchPermutes(s, k);
    var r := Touch(s, k);
    forall v ensures Entry(k', v) in r <==> Entry(k', v) in s {
      assert Entry(k', v) in multiset(r) <==> Entry(k', v) in multiset(s);
    }
    SameLookup(r, s, k');
  }

  /**
   * A hit is moved to the front and the other entries keep their relative
   * order; a miss leaves the list as it was.
   */
  lemma TouchOrder(s: seq<Entry>, k: string)
    requires DistinctKeys(s)
    ensures k in Keys(s) ==>
      exists i :: 0 <= i < |s| && s[i].key == k && Touch(s, k) == [s[i]] + s[..i] + s[i + 1..]
    ensures k !in Keys(s) ==> Touch(s, k) == s
  {
    match Find(s, k)
    case None =>
    case Some(i) =>
      assert Touch(s, k) == [s[i]] + s[..i] + s[i + 1..];
  }

  // ---------------------------------------------------------------------------
  // Put

  /** `Put` keeps the keys distinct and the size within capacity. */
  lemma PutPreservesInv(s: seq<Entry>, capacity: int, k: string, v: string)
    requires Inv(s, capacity)
    ensures Inv(Put(s, capacity, k, v), capacity)
  {
    match Find(s, k)
    case Some(i) =>
      RemoveAtKeys(s, i);
      ConsKeys(Entry(k, v), RemoveAt(s, i));
    case None =>
      ConsKeys(Entry(k, v), s);
      var t := [Entry(k, v)] + s;
      if |t| > capacity {
        DropLastKeys(t);
      }
  }

  /** After `Put(k, v)` on a cache that can hold anything, `k` maps to `v`. */
  lemma PutThenLookup(s: seq<Entry>, capacity: int, k: string, v: string)
    requires Inv(s, capacity) && capacity >= 1
    ensures Put(s, capacity, k, v)[0] == Entry(k, v)
    ensures Lookup(Put(s, capacity, k, v), k) == Some(v)
  {
    PutPreservesInv(s, capacity, k, v);
    var r := Put(s, capacity, k, v);
    assert |r| > 0;
    assert r[0] in r;
    LookupIsMembership(r, k, v);
  }

  /** A capacity of zero or less keeps nothing: the new entry is evicted at once. */
  lemma PutWithoutRoom(s: seq<Entry>, capacity: int, k: string, v: string)
    requires Inv(s, capacity) && capacity <= 0
    ensures Put(s, capacity, k, v) == []
  {
  }

  /**
   * `Put` on a key already present overwrites its value and moves it to the
   * front; the size and the set of keys stay the same, nothing is evicted,
   * and every other key keeps its value.
   */
  lemma PutExisting(s: seq<Entry>, capacity: int, k: string, v: string, k': string)
    requires Inv(s, capacity) && k in Keys(s)
    ensures |Put(s, capacity, k, v)| == |s|
    ensures Keys(Put(s, capacity, k, v)) == Keys(s)
    ensures k' != k ==> Lookup(Put(s, capacity, k, v), k') == Lookup(s, k')
  {
    var i := Find(s, k).value;
    var r := Put(s, capacity, k, v);
    RemoveAtKeys(s, i);
    ConsKeys(Entry(k, v), RemoveAt(s, i));
    if k' != k {
      forall w ensures Entry(k', w) in r <==> Entry(k', w) in s {
        assert s == s[..i] + [s[i]] + s[i + 1..];
      }
      SameLookup(r, s, k');
    }
  }

  /**
   * `Put` on a new key inserts it at the front. While there is room nothing
   * else changes; when the cache was full exactly one entry goes, the least
   * recently used one, and its key is no longer present.
   */
  lemma PutNew(s: seq<Entry>, capacity: int, k: string, v: string)
    requires Inv(s, capacity) && k !in Keys(s)
    ensures |s| < capacity ==> Put(s, capacity, k, v) == [Entry(k, v)] + s
    ensures |s| >= capacity && s != [] ==>
      && Put(s, capacity, k, v) == [Entry(k, v)] + s[..|s| - 1]
      && s[|s| - 1].key !in Keys(Put(s, capacity, k, v))
      && Keys(Put(s, capacity, k, v)) == Keys(s) - {s[|s| - 1].key} + {k}
  {
    var t := [Entry(k, v)] + s;
    if |s| >= capacity && s != [] {
      ConsKeys(Entry(k, v), s);
      DropLastKeys(t);
      assert t[..|t| - 1] == [Entry(k, v)] + s[..|s| - 1];
      assert t[|t| - 1] == s[|s| - 1];
      assert s[|s| - 1].key != k by { KeyAt(s, |s| - 1); }
    }
  }

  /**
   * What `Put(k, v)` does to another key: it keeps its value unless it was
   * the least recently used entry of a full cache, which is evicted.
   */
  lemma PutOther(s: seq<Entry>, capacity: int, k: string, v: string, k': string)
    requires Inv(s, capacity) && k' != k
    ensures Lookup(Put(s, capacity, k, v), k') ==
      if k !in Keys(s) && |s| >= capacity && s != [] && s[|s| - 1].key == k'
      then None
      else Lookup(s, k')
  {
    var r := Put(s, capacity, k, v);
    PutPreservesInv(s, capacity, k, v);
    if k in Keys(s) {
      PutExisting(s, capacity, k, v, k');
    } else if |s| < capacity {
      PutNew(s, capacity, k, v);
      ConsKeys(Entry(k, v), s);
      SameLookup(r, s, k');
    } else if s == [] {
    } else {
      PutNew(s, capacity, k, v);
      var last := s[|s| - 1];
      if last.key != k' {
        forall w ensures Entry(k', w) in r <==> Entry(k', w) in s {
          assert s == s[..|s| - 1] + [last];
        }
        DropLastKeys(s);
        ConsKeys(Entry(k, v), s[..|s| - 1]);
        SameLookup(r, s, k');
      }
    }
  }

  // ---------------------------------------------------------------------------
  // Sequences of calls

  /** In a cache of two, "a" then "b" then "c": "a", the least recently used, is evicted. */
  lemma EvictionExample()
    ensures var s := Put(Put(Put([], 2, "a", "1"), 2, "b", "2"), 2, "c", "3");
      Lookup(s, "a") == None && Lookup(s, "b") == Some("2") && Lookup(s, "c") == Some("3")
  {
    assert Put([], 2, "a", "1") == [Entry("a", "1")];
    assert Put([Entry("a", "1")], 2, "b", "2") == [Entry("b", "2"), Entry("a", "1")];
    assert Put([Entry("b", "2"), Entry("a", "1")], 2, "c", "3") == [Entry("c", "3"), Entry("b", "2")];
  }

  /** Reading "a" makes it the most recently used, so "c" evicts "b" instead. */
  lemma RecencyExample()
    ensures var s := Put(Touch(Put(Put([], 2, "a", "1"), 2, "b", "2"), "a"), 2, "c", "3");
      Lookup(s, "b") == None && Lookup(s, "a") == Some("1")
  {
    assert Put(Put([], 2, "a", "1"), 2, "b", "2") == [Entry("b", "2"), Entry("a", "1")];
    assert Touch([Entry("b", "2"), Entry("a", "1")], "a") == [Entry("a", "1"), Entry("b", "2")];
    assert Put([Entry("a", "1"), Entry("b", "2")], 2, "c", "3") == [Entry("c", "3"), Entry("a", "1")];
  }
}
