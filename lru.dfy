/**
 * The LRU cache: a map from keys to list nodes plus a doubly linked list
 * between two sentinel nodes, kept in most- to least-recently-used order.
 * The ghost field `nodes` is the list between the sentinels and `Contents`
 * the entries those nodes hold; the operations are specified by the
 * functions of LruModel on `Contents`.
 */
module Lru {
  import opened Wrappers
  import M = LruModel
  import Sets

  /** A list node; the two sentinels hold empty strings. */
  class Node {
    const key: string
    var value: string
    var prev: Node?
    var next: Node?

    constructor (key: string, value: string)
      ensures this.key == key && this.value == value
      ensures prev == null && next == null
    {
      this.key := key;
      this.value := value;
      prev := null;
      next := null;
    }
  }

  /** The map sends the key of every node of `ns` to that very node. */
  ghost predicate Mapped(ns: seq<Node>, cache: map<string, Node>)
  {
    forall n :: n in ns ==> n.key in cache && cache[n.key] == n
  }

  /** Reordering the list by moving one node to the front keeps every node mapped. */
  lemma MappedMoveToFront(ns: seq<Node>, i: nat, cache: map<string, Node>)
    requires i < |ns| && Mapped(ns, cache)
    ensures Mapped(M.MoveToFront(ns, i), cache)
  {
  }

  /** A new node, mapped under its own key, joins the mapped nodes. */
  lemma MappedCons(n: Node, ns: seq<Node>, cache: map<string, Node>)
    requires Mapped(ns, cache) && n.key !in cache
    ensures Mapped([n] + ns, cache[n.key := n])
  {
  }

  /** Dropping the last node and its key keeps the others mapped, being different nodes. */
  lemma MappedDropLast(ns: seq<Node>, cache: map<string, Node>)
    requires ns != [] && Mapped(ns, cache)
    requires forall j :: 0 <= j < |ns| - 1 ==> ns[j] != ns[|ns| - 1]
    ensures Mapped(M.RemoveAt(ns, |ns| - 1), cache - {ns[|ns| - 1].key})
  {
    var r := M.RemoveAt(ns, |ns| - 1);
    forall n | n in r ensures n != ns[|ns| - 1] {
      var j :| 0 <= j < |r| && r[j] == n;
    }
  }

  class LRUCache {
    const capacity: int
    var cache: map<string, Node>
    const head: Node
    const tail: Node

    /** The nodes strictly between `head` and `tail`, front to back. */
    ghost var nodes: seq<Node>
    /** The entries those nodes hold, most recently used first. */
    ghost var Contents: seq<M.Entry>

    /** The node in front of position `i`: `head` for the first node. */
    ghost function Before(ns: seq<Node>, i: nat): Node
      requires i < |ns|
    {
      if i == 0 then head else ns[i - 1]
    }

    /** The node behind position `i`: `tail` for the last node. */
    ghost function After(ns: seq<Node>, i: nat): Node
      requires i < |ns|
    {
      if i == |ns| - 1 then tail else ns[i + 1]
    }

    /** The first node after `head`: `tail` when the list is empty. */
    ghost function First(ns: seq<Node>): Node
    {
      if ns == [] then tail else ns[0]
    }

    /** `head`, then the distinct nodes of `ns`, then `tail` form a well-linked chain. */
    ghost predicate Linked(ns: seq<Node>)
      reads head`next, tail`prev, ns`prev, ns`next
    {
      && head != tail && head !in ns && tail !in ns
      && (forall i, j :: 0 <= i < j < |ns| ==> ns[i] != ns[j])
      && head.next == First(ns)
      && tail.prev == (if ns == [] then head else ns[|ns| - 1])
      && (forall i {:trigger Before(ns, i)} {:trigger After(ns, i)} ::
            0 <= i < |ns| ==> ns[i].prev == Before(ns, i) && ns[i].next == After(ns, i))
    }

    /** The chain from `head` to `tail` is well linked and its nodes hold `Contents`. */
    ghost predicate ListHolds()
      reads this`nodes, this`Contents, head`next, tail`prev, nodes`prev, nodes`next, nodes`value
    {
      && Linked(nodes)
      && |Contents| == |nodes|
      && (forall i :: 0 <= i < |nodes| ==> Contents[i] == M.Entry(nodes[i].key, nodes[i].value))
    }

    /**
     * The list holds `Contents`, and the map sends the key of every listed
     * node to that node and is no larger than the list (so it holds no other
     * key). Only the size bound is missing: `Put` passes through such a state
     * between inserting and evicting.
     */
    ghost predicate Consistent()
      reads this`nodes, this`Contents, this`cache, head`next, tail`prev, nodes`prev, nodes`next, nodes`value
    {
      && ListHolds()
      && Mapped(nodes, cache)
      && |cache| == |nodes|
    }

    /** The representation invariant: consistent, and within capacity. */
    ghost predicate Valid()
      reads this`nodes, this`Contents, this`cache, head`next, tail`prev, nodes`prev, nodes`next, nodes`value
    {
      Consistent() && |Contents| <= M.Bound(capacity)
    }

    /** Two listed nodes with one key would both be the node the map gives for it. */
    lemma KeysDistinct()
      requires Consistent()
      ensures M.DistinctKeys(Contents)
    {
      forall i, j | 0 <= i < j < |Contents| ensures Contents[i].key != Contents[j].key {
        assert nodes[i] in nodes && nodes[j] in nodes;
      }
    }

    /** A valid cache holds a list that satisfies the invariant of the abstract model. */
    lemma ValidIsInv()
      requires Valid()
      ensures M.Inv(Contents, capacity)
    {
      KeysDistinct();
    }

    /** The map's keys are the list's keys. */
    lemma MapMatchesList()
      requires Consistent()
      ensures cache.Keys == M.Keys(Contents)
    {
      forall k | k in M.Keys(Contents) ensures k in cache {
        var e :| e in Contents && e.key == k;
        var j :| 0 <= j < |Contents| && Contents[j] == e;
        assert nodes[j].key == k;
      }
      KeysDistinct();
      M.KeysCount(Contents);
      assert |cache.Keys| == |cache|;
      Sets.SubsetOfSameSize(M.Keys(Contents), cache.Keys);
    }

    /**
     * The node the map gives for `key` sits where `Find` places the key, and
     * the key occurs nowhere else in the list.
     */
    lemma NodePosition(key: string) returns (i: nat)
      requires Consistent() && key in cache
      ensures M.Find(Contents, key) == Some(i)
      ensures i < |nodes| && nodes[i] == cache[key]
      ensures key !in M.Keys(M.RemoveAt(Contents, i))
    {
      MapMatchesList();
      i := M.Find(Contents, key).value;
      assert nodes[i].key == key;
      KeysDistinct();
      M.RemoveAtKeys(Contents, i);
    }

    /** A key the map does not hold is nowhere in the list. */
    lemma Absent(key: string)
      requires Consistent() && key !in cache
      ensures M.Find(Contents, key) == None && key !in M.Keys(Contents)
    {
      MapMatchesList();
      if M.Find(Contents, key).Some? {
        M.KeyAt(Contents, M.Find(Contents, key).value);
      }
    }

    /** A new cache: the given capacity, an empty map and `head` linked to `tail`. */
    constructor (capacity: int)
      ensures Valid()
      ensures this.capacity == capacity && cache == map[] && Contents == []
      ensures head.next == tail && tail.prev == head
      ensures fresh(head) && fresh(tail)
    {
      var h := new Node("", "");
      var t := new Node("", "");
      h.next := t;
      t.prev := h;
      this.capacity := capacity;
      cache := map[];
      head := h;
      tail := t;
      nodes := [];
      Contents := [];
    }

    /**
     * The value under `key` and whether it was present. A hit moves the
     * entry to the front; a miss returns the empty string and changes nothing.
     */
    method Get(key: string) returns (value: string, ok: bool)
      requires Valid()
      modifies this`nodes, this`Contents, head`next, tail`prev, nodes`prev, nodes`next
      ensures Valid()
      ensures M.Lookup(old(Contents), key) == if ok then Some(value) else None
      ensures !ok ==> value == ""
      ensures Contents == M.Touch(old(Contents), key)
      ensures forall n :: n in nodes ==> n in old(nodes)
    {
      if key !in cache {
        Absent(key);
        return "", false;
      }
      var node := cache[key];
      ghost var i := NodePosition(key);
      Promote(node, i);
      return node.value, true;
    }

    /**
     * Stores `value` under `key` as the most recently used entry, evicting
     * the least recently used one when a new key overflows the capacity.
     */
    method Put(key: string, value: string)
      requires Valid()
      modifies this`nodes, this`Contents, this`cache, head`next, tail`prev, nodes`prev, nodes`next, nodes`value
      ensures Valid()
      ensures Contents == M.Put(old(Contents), capacity, key, value)
      ensures forall n :: n in nodes ==> n in old(nodes) || fresh(n)
    {
      if key in cache {
        var node := cache[key];
        ghost var i := NodePosition(key);
        Update(node, i, value);
        return;
      }
      Absent(key);
      Insert(key, value);
    }

    /** The hit branch of `Put`: the node takes the new value and moves to the front. */
    method Update(node: Node, ghost i: nat, value: string)
      requires Consistent() && i < |nodes| && nodes[i] == node
      requires node.key !in M.Keys(M.RemoveAt(Contents, i))
      modifies this`nodes, this`Contents, head`next, tail`prev, nodes`prev, nodes`next, node`value
      ensures Consistent()
      ensures Contents == [M.Entry(node.key, value)] + old(M.RemoveAt(Contents, i))
      ensures nodes == M.MoveToFront(old(nodes), i)
    {
      node.value := value;
      Contents := Contents[i := M.Entry(node.key, value)];
      Revalued(i);
      assert M.RemoveAt(Contents, i) == M.RemoveAt(old(Contents), i);
      Promote(node, i);
    }

    /** The miss branch of `Put`: a new node goes to the front, and the last one is evicted when over capacity. */
    method Insert(key: string, value: string)
      requires Consistent() && key !in cache && key !in M.Keys(Contents)
      modifies this`nodes, this`Contents, this`cache, head`next, tail`prev, nodes`prev, nodes`next
      ensures Consistent()
      ensures var t := [M.Entry(key, value)] + old(Contents);
        Contents == if |t| > capacity then t[..|t| - 1] else t
      ensures forall n :: n in nodes ==> n in old(nodes) || fresh(n)
    {
      ghost var t := [M.Entry(key, value)] + Contents;
      var newNode := LinkNew(key, value);
      if |cache| > capacity {
        EvictLRU();
        assert Contents == t[..|t| - 1];
      }
    }

    /** Allocates a node for a new key, maps the key to it and links it at the front. */
    method LinkNew(key: string, value: string) returns (node: Node)
      requires Consistent() && key !in cache && key !in M.Keys(Contents)
      modifies this`nodes, this`Contents, this`cache, head`next, First(nodes)`prev
      ensures Consistent() && fresh(node)
      ensures nodes == [node] + old(nodes) && Contents == [M.Entry(key, value)] + old(Contents)
    {
      node := new Node(key, value);
      MappedCons(node, nodes, cache);
      cache := cache[key := node];
      InsertAtFront(node);
    }

    /**
     * After the neighbours of position `i` are pointed at each other, and no
     * other link has changed, the chain skips that position.
     */
    twostate lemma Unlinked(i: nat)
      requires nodes == old(nodes) && old(Linked(nodes)) && i < |nodes|
      requires Before(nodes, i).next == After(nodes, i) && After(nodes, i).prev == Before(nodes, i)
      requires forall k :: 0 <= k < |nodes| && k != i - 1 ==> nodes[k].next == old(nodes[k].next)
      requires forall k :: 0 <= k < |nodes| && k != i + 1 ==> nodes[k].prev == old(nodes[k].prev)
      requires i != 0 ==> head.next == old(head.next)
      requires i != |nodes| - 1 ==> tail.prev == old(tail.prev)
      ensures Linked(M.RemoveAt(nodes, i))
    {
      var ns := nodes;
      var r := M.RemoveAt(ns, i);
      assert forall j :: 0 <= j < |r| ==> r[j].prev == Before(r, j) && r[j].next == After(r, j) by {
        forall j | 0 <= j < |r| ensures r[j].prev == Before(r, j) && r[j].next == After(r, j) {
          var k := if j < i then j else j + 1;
          assert r[j] == ns[k];
          assert old(ns[k].prev) == Before(ns, k) && old(ns[k].next) == After(ns, k);
        }
      }
      assert head.next == First(r) && tail.prev == (if r == [] then head else r[|r| - 1]) by {
        assert head !in r && tail !in r;
      }
    }

    /**
     * After `node` is linked between `head` and the first node, and no other
     * link has changed, the chain starts with `node`.
     */
    twostate lemma LinkedAtFront(node: Node)
      requires nodes == old(nodes) && old(Linked(nodes)) && node !in nodes && node != head && node != tail
      requires node.prev == head && node.next == First(nodes) && head.next == node
      requires First(nodes).prev == node
      requires forall k :: 0 <= k < |nodes| ==> nodes[k].next == old(nodes[k].next)
      requires forall k :: 0 < k < |nodes| ==> nodes[k].prev == old(nodes[k].prev)
      requires nodes != [] ==> tail.prev == old(tail.prev)
      ensures Linked([node] + nodes)
    {
      var ns := nodes;
      var r := [node] + ns;
      forall j | 0 < j < |r| ensures r[j].prev == Before(r, j) && r[j].next == After(r, j) {
        assert r[j] == ns[j - 1];
        assert old(ns[j - 1].prev) == Before(ns, j - 1) && old(ns[j - 1].next) == After(ns, j - 1);
      }
    }

    /**
     * Moves `node`, the one at position `i`, to the front of the list: the
     * unlink-and-relink that both `Get` and `Put` perform on a hit.
     */
    method Promote(node: Node, ghost i: nat)
      requires Consistent() && i < |nodes| && nodes[i] == node
      requires node.key !in M.Keys(M.RemoveAt(Contents, i))
      modifies this`nodes, this`Contents, head`next, tail`prev, nodes`prev, nodes`next
      ensures Consistent()
      ensures nodes == M.MoveToFront(old(nodes), i) && Contents == M.MoveToFront(old(Contents), i)
    {
      ghost var ns, cs := nodes, Contents;
      MappedMoveToFront(nodes, i, cache);
      Remove(node, i);
      InsertAtFront(node);
      assert nodes == M.MoveToFront(ns, i) && Contents == M.MoveToFront(cs, i);
    }

    /**
     * After the value of the node at position `i` changes, and `Contents`
     * records the new value there, the list still holds `Contents`.
     */
    twostate lemma Revalued(i: nat)
      requires old(ListHolds()) && nodes == old(nodes) && i < |nodes|
      requires Contents == old(Contents)[i := M.Entry(nodes[i].key, nodes[i].value)]
      requires forall k :: 0 <= k < |nodes| ==> nodes[k].prev == old(nodes[k].prev) && nodes[k].next == old(nodes[k].next)
      requires head.next == old(head.next) && tail.prev == old(tail.prev)
      requires forall k :: 0 <= k < |nodes| && k != i ==> nodes[k].value == old(nodes[k].value)
      ensures ListHolds()
    {
      var ns := nodes;
      assert Linked(ns) by {
        forall j | 0 <= j < |ns| ensures ns[j].prev == Before(ns, j) && ns[j].next == After(ns, j) {
          assert old(ns[j].prev) == Before(ns, j) && old(ns[j].next) == After(ns, j);
        }
      }
    }

    /** Unlinks `node`, the one at position `i`: its two neighbours now point at each other. */
    method Remove(node: Node, ghost i: nat)
      requires ListHolds() && i < |nodes| && nodes[i] == node
      modifies this`nodes, this`Contents, Before(nodes, i)`next, After(nodes, i)`prev
      ensures ListHolds()
      ensures nodes == old(M.RemoveAt(nodes, i)) && Contents == old(M.RemoveAt(Contents, i))
    {
      ghost var ns, cs := nodes, Contents;
      var prev := node.prev;
      var next := node.next;
      prev.next := next;
      next.prev := prev;
      Unlinked(i);
      nodes, Contents := M.RemoveAt(nodes, i), M.RemoveAt(Contents, i);
      forall j | 0 <= j < |nodes| ensures Contents[j] == M.Entry(nodes[j].key, nodes[j].value) {
        var k := if j < i then j else j + 1;
        assert nodes[j] == ns[k] && Contents[j] == cs[k];
      }
    }

    /** Links `node` right after `head`, in front of the previous first node. */
    method InsertAtFront(node: Node)
      requires ListHolds() && node.key !in M.Keys(Contents) && node != head && node != tail
      modifies this`nodes, this`Contents, node`prev, node`next, head`next, First(nodes)`prev
      ensures ListHolds()
      ensures nodes == [node] + old(nodes) && Contents == [M.Entry(node.key, node.value)] + old(Contents)
    {
      ghost var ns, cs := nodes, Contents;
      forall j | 0 <= j < |ns| ensures ns[j] != node {
        M.KeyAt(cs, j);
      }
      node.next := head.next;
      node.prev := head;
      head.next.prev := node;
      head.next := node;
      LinkedAtFront(node);
      nodes, Contents := [node] + nodes, [M.Entry(node.key, node.value)] + Contents;
      forall j | 0 < j < |nodes| ensures Contents[j] == M.Entry(nodes[j].key, nodes[j].value) {
        assert nodes[j] == ns[j - 1] && Contents[j] == cs[j - 1];
      }
    }

    /** Drops the node just before `tail` from the list and its key from the map. */
    method EvictLRU()
      requires Consistent() && nodes != []
      modifies this`nodes, this`Contents, this`cache, head`next, tail`prev, nodes`prev, nodes`next
      ensures Consistent()
      ensures Contents == old(Contents[..|Contents| - 1])
      ensures cache == old(cache) - {old(Contents[|Contents| - 1].key)}
      ensures nodes == old(nodes[..|nodes| - 1])
    {
      var lruNode := tail.prev;
      ghost var cs := Contents;
      KeysDistinct();
      MappedDropLast(nodes, cache);
      Remove(lruNode, |nodes| - 1);
      cache := cache - {lruNode.key};
      assert Contents == cs[..|cs| - 1];
    }
  }

  /** A cache of one that takes "a" and then "b" has evicted "a". */
  method EvictionScenario() returns (hitA: bool)
    ensures !hitA
  {
    var lru := new LRUCache(1);
    lru.Put("a", "1");
    lru.Put("b", "2");
    assert lru.Contents == [M.Entry("b", "2")];
    var value;
    value, hitA := lru.Get("a");
  }

  /** A second `Put` of the same key overwrites its value. */
  method UpdateScenario() returns (value: string)
    ensures value == "updated"
  {
    var lru := new LRUCache(2);
    lru.Put("a", "1");
    lru.Put("a", "updated");
    var hit;
    value, hit := lru.Get("a");
  }
}
