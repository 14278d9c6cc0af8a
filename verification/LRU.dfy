/** Two least-recently-used caches, one on a library list and one on a hand-linked
    doubly linked list, against a plain sequence in most-recent-first order. */
module LRU {
  import opened Common
  import opened CacheOps

  // ---------------------------------------------------------------- the simple cache

  datatype Pair = Pair(key: int, val: int)

  /** Where key is in es, or -1. */
  function Find(es: seq<Pair>, key: int): (i: int)
    ensures -1 <= i < |es| && (i >= 0 ==> es[i].key == key)
  {
    if es == [] then -1
    else if es[0].key == key then 0
    else
      var i := Find(es[1..], key);
      if i == -1 then -1 else i + 1
  }

  lemma {:induction false} FindIs(es: seq<Pair>, key: int, i: nat)
    requires i < |es| && es[i].key == key && forall j :: 0 <= j < i ==> es[j].key != key
    ensures Find(es, key) == i
  {
    if i > 0 {
      FindIs(es[1..], key, i - 1);
    }
  }

  lemma {:induction false} FindNone(es: seq<Pair>, key: int)
    requires forall j :: 0 <= j < |es| ==> es[j].key != key
    ensures Find(es, key) == -1
  {
    if es != [] {
      FindNone(es[1..], key);
    }
  }

  /** Entry i moves to the front, with the given value. */
  function ToFront(es: seq<Pair>, i: nat, val: int): seq<Pair>
    requires i < |es|
  {
    [Pair(es[i].key, val)] + Without(es, i)
  }

  function ModelGet(es: seq<Pair>, key: int): (seq<Pair>, int) {
    var i := Find(es, key);
    if i == -1 then (es, -1) else (ToFront(es, i, es[i].val), es[i].val)
  }

  /** A new key enters at the front; when the cache is full the last entry goes. */
  function ModelPut(es: seq<Pair>, capacity: nat, key: int, val: int): seq<Pair> {
    var i := Find(es, key);
    if i >= 0 then ToFront(es, i, val)
    else if |es| >= capacity && es != [] then [Pair(key, val)] + es[..|es| - 1]
    else [Pair(key, val)] + es
  }

  // ---------------------------------------------------------------- hand-linked list

  class DLinkedNode {
    const key: int
    var value: int
    var prev: DLinkedNode?
    var next: DLinkedNode?
    constructor (k: int, v: int)
      ensures key == k && value == v && prev == null && next == null
    {
      key, value, prev, next := k, v, null, null;
    }
  }

  /** Neighbours i and i+1 point at each other. */
  ghost predicate Link(chain: seq<DLinkedNode>, i: nat)
    requires i + 1 < |chain|
    reads chain
  {
    chain[i].next == chain[i + 1] && chain[i + 1].prev == chain[i]
  }

  /** A well-formed doubly linked chain. */
  ghost predicate Chain(chain: seq<DLinkedNode>)
    reads chain
  {
    |chain| >= 2 && Distinct(chain) && forall i :: 0 <= i < |chain| - 1 ==> Link(chain, i)
  }

  /** es lists key and value of the nodes between the two ends of the chain. */
  ghost predicate Holds(chain: seq<DLinkedNode>, es: seq<Pair>)
    reads chain
  {
    |chain| == |es| + 2 && forall i :: 0 <= i < |es| ==> es[i] == Pair(chain[i + 1].key, chain[i + 1].value)
  }

  /** The map leads to exactly the nodes between the two ends of the chain. */
  ghost predicate Mapped(cache: map<int, DLinkedNode>, chain: seq<DLinkedNode>) {
    && |chain| >= 2
    && (forall i :: 1 <= i < |chain| - 1 ==> chain[i].key in cache && cache[chain[i].key] == chain[i])
    && (forall k {:trigger Inside(cache, chain, k)} :: k in cache ==> Inside(cache, chain, k))
  }

  /** The node mapped from key k is that key's, and stands between the two ends. */
  ghost predicate Inside(cache: map<int, DLinkedNode>, chain: seq<DLinkedNode>, k: int)
    requires k in cache && |chain| >= 2
  {
    cache[k].key == k && cache[k] in chain[1..|chain| - 1]
  }

  /** Node k of the chain at the front. */
  function Fronted(chain: seq<DLinkedNode>, k: nat): seq<DLinkedNode>
    requires 0 < k < |chain| - 1
  {
    [chain[0], chain[k]] + Without(chain, k)[1..]
  }

  lemma {:induction false} FrontedAt(chain: seq<DLinkedNode>, k: nat, i: nat)
    requires 0 < k < |chain| - 1 && i < |chain|
    ensures |Fronted(chain, k)| == |chain|
    ensures Fronted(chain, k)[i]
         == if i == 0 then chain[0] else if i == 1 then chain[k] else if i <= k then chain[i - 1] else chain[i]
  {
  }

  lemma {:induction false} MappedFronted(cache: map<int, DLinkedNode>, chain: seq<DLinkedNode>, k: nat)
    requires Mapped(cache, chain) && 0 < k < |chain| - 1
    ensures Mapped(cache, Fronted(chain, k))
  {
    var f := Fronted(chain, k);
    forall i | 1 <= i < |f| - 1 ensures f[i].key in cache && cache[f[i].key] == f[i] {
      FrontedAt(chain, k, i);
    }
    FrontedAt(chain, k, 0);
    forall key | key in cache ensures Inside(cache, f, key) {
      assert Inside(cache, chain, key);
      var n := cache[key];
      var i :| 0 <= i < |chain| - 2 && chain[1..|chain| - 1][i] == n;
      FrontedAt(chain, k, if i + 1 < k then i + 2 else if i + 1 == k then 1 else i + 1);
      assert f[1..|f| - 1][if i + 1 < k then i + 1 else if i + 1 == k then 0 else i] == n;
    }
  }

  lemma {:induction false} HoldsFronted(chain: seq<DLinkedNode>, es: seq<Pair>, k: nat)
    requires Holds(chain, es) && 0 < k < |chain| - 1
    ensures Holds(Fronted(chain, k), ToFront(es, k - 1, chain[k].value))
  {
    var f, es' := Fronted(chain, k), ToFront(es, k - 1, chain[k].value);
    FrontedAt(chain, k, 0);
    forall i | 0 <= i < |es'| ensures es'[i] == Pair(f[i + 1].key, f[i + 1].value) {
      FrontedAt(chain, k, i + 1);
    }
  }

  /** A cached key is found at its node's place, and no other key is found. */
  lemma {:induction false} Located(cache: map<int, DLinkedNode>, chain: seq<DLinkedNode>, es: seq<Pair>, key: int)
    returns (k: nat)
    requires Mapped(cache, chain) && Holds(chain, es) && Distinct(chain)
    ensures key in cache ==> 0 < k < |chain| - 1 && chain[k] == cache[key] && Find(es, key) == k - 1
    ensures key !in cache ==> Find(es, key) == -1
  {
    k := 0;
    if key in cache {
      assert Inside(cache, chain, key);
      var i :| 0 <= i < |chain| - 2 && chain[1..|chain| - 1][i] == cache[key];
      k := i + 1;
      forall j | 0 <= j < i ensures es[j].key != key {
        assert cache[chain[j + 1].key] == chain[j + 1];
      }
      FindIs(es, key, i);
    } else {
      forall j | 0 <= j < |es| ensures es[j].key != key {
        assert chain[j + 1].key in cache;
      }
      FindNone(es, key);
    }
  }

  /** A new node enters at the front ... */
  lemma {:induction false} MappedAdded(cache: map<int, DLinkedNode>, chain: seq<DLinkedNode>, node: DLinkedNode)
    requires Mapped(cache, chain) && node.key !in cache
    ensures Mapped(cache[node.key := node], [chain[0], node] + chain[1..])
  {
    var c, f := cache[node.key := node], [chain[0], node] + chain[1..];
    forall i | 1 <= i < |f| - 1 ensures f[i].key in c && c[f[i].key] == f[i] {
      if i > 1 {
        assert f[i] == chain[i - 1];
      }
    }
    forall key | key in c ensures Inside(c, f, key) {
      if key == node.key {
        assert f[1..|f| - 1][0] == node;
      } else {
        assert Inside(cache, chain, key);
        var i :| 0 <= i < |chain| - 2 && chain[1..|chain| - 1][i] == cache[key];
        assert f[1..|f| - 1][i + 1] == cache[key];
      }
    }
  }

  /** ... and the last one leaves. */
  lemma {:induction false} MappedRemoved(cache: map<int, DLinkedNode>, chain: seq<DLinkedNode>)
    requires Mapped(cache, chain) && Distinct(chain) && |chain| > 2
    ensures Mapped(cache - {chain[|chain| - 2].key}, Without(chain, |chain| - 2))
  {
    var k := |chain| - 2;
    var c, f := cache - {chain[k].key}, Without(chain, k);
    forall i | 1 <= i < |f| - 1 ensures f[i].key in c && c[f[i].key] == f[i] {
      assert f[i] == chain[i];
    }
    forall key | key in c ensures Inside(c, f, key) {
      assert Inside(cache, chain, key);
      var i :| 0 <= i < |chain| - 2 && chain[1..|chain| - 1][i] == cache[key];
      assert f[1..|f| - 1][i] == cache[key];
    }
  }

  lemma {:induction false} HoldsAdded(chain: seq<DLinkedNode>, es: seq<Pair>, node: DLinkedNode)
    requires Holds(chain, es)
    ensures Holds([chain[0], node] + chain[1..], [Pair(node.key, node.value)] + es)
    ensures forall n :: n in [chain[0], node] + chain[1..] ==> n == node || n in chain
  {
  }

  lemma {:induction false} HoldsRemoved(chain: seq<DLinkedNode>, es: seq<Pair>)
    requires Holds(chain, es) && |chain| > 2
    ensures es != [] && Holds(Without(chain, |chain| - 2), es[..|es| - 1])
    ensures forall n :: n in Without(chain, |chain| - 2) ==> n in chain
  {
  }

  class LRUCache {
    var cache: map<int, DLinkedNode>
    const head: DLinkedNode
    const tail: DLinkedNode
    var size: int
    const capacity: int
    /** All nodes from head to tail. */
    ghost var chain: seq<DLinkedNode>

    /** The cached pairs, most recent first. */
    ghost var es: seq<Pair>

    ghost predicate Linked()
      reads this, chain
    {
      Chain(chain) && chain[0] == head && chain[|chain| - 1] == tail
    }

    method AddToHead(node: DLinkedNode)
      requires Linked() && node !in chain
      modifies this`chain, (set n | n in chain)`next, (set n | n in chain)`prev, node`next, node`prev
      ensures Linked() && chain == [head, node] + old(chain)[1..]
    {
      assert Link(chain, 0);
      ghost var c := chain;
      node.prev := head;
      node.next := head.next;
      head.next.prev := node;
      head.next := node;
      chain := [head, node] + chain[1..];
      forall i | 0 <= i < |chain| - 1 ensures Link(chain, i) {
        if i >= 2 {
          assert old(Link(c, i - 1));
        }
      }
    }

    method RemoveNode(node: DLinkedNode, ghost k: nat)
      requires Linked() && 0 < k < |chain| - 1 && chain[k] == node
      modifies this`chain, (set n | n in chain)`next, (set n | n in chain)`prev
      ensures Linked() && chain == Without(old(chain), k)
    {
      assert Link(chain, k - 1) && Link(chain, k);
      ghost var c := chain;
      node.prev.next := node.next;
      node.next.prev := node.prev;
      chain := Without(chain, k);
      forall i | 0 <= i < |chain| - 1 ensures Link(chain, i) {
        if i < k - 1 {
          assert old(Link(c, i));
        } else if i > k - 1 {
          assert old(Link(c, i + 1));
        }
      }
    }

    ghost predicate Valid()
      reads this, chain
    {
      Linked() && Holds(chain, es) && Mapped(cache, chain) && size == |es| <= capacity && capacity >= 1
    }

    constructor (cap: int)
      requires cap >= 1
      ensures Valid() && capacity == cap && es == [] && fresh(chain)
    {
      capacity, size := cap, 0;
      var h := new DLinkedNode(0, 0);
      var t := new DLinkedNode(0, 0);
      head, tail, cache, chain, es := h, t, map[], [h, t], [];
      new;
      head.next := tail;
      tail.prev := head;
    }

    method MoveToHead(node: DLinkedNode, ghost k: nat)
      requires Linked() && 0 < k < |chain| - 1 && chain[k] == node
      modifies this`chain, (set n | n in chain)`next, (set n | n in chain)`prev
      ensures Linked() && chain == Fronted(old(chain), k)
    {
      RemoveNode(node, k);
      AddToHead(node);
    }

    method RemoveTail() returns (node: DLinkedNode)
      requires Linked() && |chain| > 2
      modifies this`chain, (set n | n in chain)`next, (set n | n in chain)`prev
      ensures node == old(chain)[|old(chain)| - 2]
      ensures Linked() && chain == Without(old(chain), |old(chain)| - 2)
    {
      assert Link(chain, |chain| - 2);
      node := tail.prev;
      RemoveNode(node, |chain| - 2);
    }

    method Get(key: int) returns (r: int)
      requires Valid()
      modifies this, chain
      ensures Valid() && fresh(set n | n in chain && n !in old(chain))
      ensures (es, r) == ModelGet(old(es), key)
    {
      ghost var k := Located(cache, chain, es, key);
      if key !in cache {
        return -1;
      }
      var node := cache[key];
      HoldsFronted(chain, es, k);
      MappedFronted(cache, chain, k);
      ghost var es' := ToFront(es, k - 1, node.value);
      MoveToHead(node, k);
      es := es';
      r := node.value;
    }

    method Put(key: int, value: int)
      requires Valid()
      modifies this, chain
      ensures Valid() && fresh(set n | n in chain && n !in old(chain))
      ensures es == ModelPut(old(es), capacity, key, value)
    {
      ghost var k := Located(cache, chain, es, key);
      if key !in cache {
        Insert(key, value);
        if size > capacity {
          EvictLast();
        }
      } else {
        Update(cache[key], value, k);
      }
    }

    /** The branch of put for a new key, before the size is checked. */
    method Insert(key: int, value: int)
      requires Valid() && key !in cache
      modifies this, chain
      ensures Linked() && Holds(chain, es) && Mapped(cache, chain) && size == |es|
      ensures fresh(set n | n in chain && n !in old(chain))
      ensures es == [Pair(key, value)] + old(es)
    {
      var node := new DLinkedNode(key, value);
      MappedAdded(cache, chain, node);
      HoldsAdded(chain, es, node);
      cache := cache[key := node];
      AddToHead(node);
      es := [Pair(key, value)] + es;
      size := size + 1;
    }

    /** The branch of put that makes room. */
    method EvictLast()
      requires Linked() && Holds(chain, es) && Mapped(cache, chain) && size == |es| == capacity + 1 && capacity >= 1
      modifies this, chain
      ensures Valid() && es == old(es)[..|old(es)| - 1]
      ensures fresh(set n | n in chain && n !in old(chain))
    {
      MappedRemoved(cache, chain);
      HoldsRemoved(chain, es);
      var removed := RemoveTail();
      cache := cache - {removed.key};
      es := es[..|es| - 1];
      size := size - 1;
    }

    /** The branch of put for a cached key. */
    method Update(node: DLinkedNode, value: int, ghost k: nat)
      requires Valid() && 0 < k < |chain| - 1 && chain[k] == node
      modifies this, chain
      ensures Valid() && fresh(set n | n in chain && n !in old(chain))
      ensures es == ToFront(old(es), k - 1, value)
    {
      SetValue(node, value, k);
      HoldsFronted(chain, es, k);
      MappedFronted(cache, chain, k);
      ghost var es' := ToFront(es, k - 1, value);
      MoveToHead(node, k);
      es := es';
    }

    /** node->value = value */
    method SetValue(node: DLinkedNode, value: int, ghost k: nat)
      requires Valid() && 0 < k < |chain| - 1 && chain[k] == node
      modifies this`es, node`value
      ensures Valid() && node.value == value && |es| == |old(es)|
      ensures es == old(es)[k - 1 := Pair(node.key, value)]
    {
      ghost var es0 := es;
      es := es[k - 1 := Pair(node.key, value)];
      node.value := value;
      forall i | 0 <= i < |chain| - 1 ensures Link(chain, i) {
        assert old(Link(chain, i));
      }
      forall i | 0 <= i < |es| ensures es[i] == Pair(chain[i + 1].key, chain[i + 1].value) {
        assert es0[i] == old(Pair(chain[i + 1].key, chain[i + 1].value));
        assert chain[i + 1] == node <==> i + 1 == k;
      }
    }
  }

  // ---------------------------------------------------------------- library list

  /** An element of the library list.  Its links are the library's; an iterator is a
      reference to the element. */
  class Cell {
    const key: int
    var value: int
    constructor (k: int, v: int)
      ensures key == k && value == v
    {
      key, value := k, v;
    }
  }

  /** Where the element an iterator points to stands. */
  function Position(cells: seq<Cell>, c: Cell): (i: nat)
    requires c in cells
    ensures i < |cells| && cells[i] == c
  {
    if cells[0] == c then 0 else 1 + Position(cells[1..], c)
  }

  /** splice to the front: the element moves, and every iterator stays valid. */
  function Spliced(cells: seq<Cell>, p: nat): (r: seq<Cell>)
    requires p < |cells|
    ensures |r| == |cells|
    ensures forall i :: 0 <= i < |r| ==> r[i] == cells[if i == 0 then p else if i <= p then i - 1 else i]
  {
    [cells[p]] + cells[..p] + cells[p + 1..]
  }

  ghost predicate Lists(cells: seq<Cell>, es: seq<Pair>)
    reads cells
  {
    |cells| == |es| && forall i :: 0 <= i < |es| ==> es[i] == Pair(cells[i].key, cells[i].value)
  }

  /** Every element has an iterator in the map under its key, and every iterator in the
      map is valid and points to its key. */
  ghost predicate Iterators(its: map<int, Cell>, cells: seq<Cell>) {
    && Distinct(cells)
    && (forall i :: 0 <= i < |cells| ==> cells[i].key in its && its[cells[i].key] == cells[i])
    && (forall k :: k in its ==> ValidIterator(its, cells, k))
  }

  ghost predicate ValidIterator(its: map<int, Cell>, cells: seq<Cell>, k: int)
    requires k in its
  {
    its[k].key == k && its[k] in cells
  }

  lemma {:induction false} LocatedCell(its: map<int, Cell>, cells: seq<Cell>, es: seq<Pair>, key: int)
    requires Iterators(its, cells) && Lists(cells, es)
    ensures key in its ==> its[key] in cells && Find(es, key) == Position(cells, its[key])
    ensures key !in its ==> Find(es, key) == -1
  {
    if key in its {
      assert ValidIterator(its, cells, key);
      var p := Position(cells, its[key]);
      forall j | 0 <= j < p ensures es[j].key != key {
        assert cells[j] != cells[p];
      }
      FindIs(es, key, p);
    } else {
      FindNone(es, key);
    }
  }

  lemma {:induction false} SplicedOk(its: map<int, Cell>, cells: seq<Cell>, p: nat)
    requires Iterators(its, cells) && p < |cells|
    ensures Iterators(its, Spliced(cells, p))
  {
    var r := Spliced(cells, p);
    forall k | k in its ensures ValidIterator(its, r, k) {
      assert ValidIterator(its, cells, k);
      var i := Position(cells, its[k]);
      assert r[if i == p then 0 else if i < p then i + 1 else i] == its[k];
    }
  }

  lemma {:induction false} SplicedLists(cells: seq<Cell>, es: seq<Pair>, p: nat)
    requires Lists(cells, es) && p < |cells|
    ensures Lists(Spliced(cells, p), ToFront(es, p, cells[p].value))
  {
  }

  lemma {:induction false} PoppedOk(its: map<int, Cell>, cells: seq<Cell>)
    requires Iterators(its, cells) && cells != []
    ensures Iterators(its - {cells[|cells| - 1].key}, cells[..|cells| - 1])
  {
    var n := |cells| - 1;
    var less := its - {cells[n].key};
    forall k | k in less ensures ValidIterator(less, cells[..n], k) {
      assert ValidIterator(its, cells, k);
      assert cells[..n][Position(cells, its[k])] == its[k];
    }
  }

  lemma {:induction false} PushedOk(its: map<int, Cell>, cells: seq<Cell>, c: Cell)
    requires Iterators(its, cells) && c.key !in its
    ensures Iterators(its[c.key := c], [c] + cells)
  {
    var r, more := [c] + cells, its[c.key := c];
    assert r[0] == c;
    forall k | k in more ensures ValidIterator(more, r, k) {
      if k != c.key {
        assert ValidIterator(its, cells, k);
        assert r[Position(cells, its[k]) + 1] == its[k];
      }
    }
  }

  lemma {:induction false} PushedLists(cells: seq<Cell>, es: seq<Pair>, c: Cell)
    requires Lists(cells, es)
    ensures Lists([c] + cells, [Pair(c.key, c.value)] + es)
  {
  }

  /** The cache on std::list and a map of its iterators. */
  class ListLRUCache {
    const capacity_: int
    var cache_list_: seq<Cell>
    var cache_map_: map<int, Cell>

    /** The cached pairs, most recent first. */
    ghost var es: seq<Pair>

    ghost predicate Valid()
      reads this, cache_list_
    {
      capacity_ >= 1 && |es| <= capacity_ && Lists(cache_list_, es) && Iterators(cache_map_, cache_list_)
    }

    constructor (capacity: int)
      requires capacity >= 1
      ensures Valid() && capacity_ == capacity && es == [] && cache_list_ == []
    {
      capacity_, cache_list_, cache_map_, es := capacity, [], map[], [];
    }

    method Get(key: int) returns (r: int)
      requires Valid()
      modifies this
      ensures Valid() && (forall c :: c in cache_list_ ==> c in old(cache_list_))
      ensures (es, r) == ModelGet(old(es), key)
    {
      LocatedCell(cache_map_, cache_list_, es, key);
      if key !in cache_map_ {
        return -1;
      }
      var it := cache_map_[key];
      Splice(it);
      r := it.value;
    }

    /** cache_list_.splice(cache_list_.begin(), cache_list_, it) */
    method Splice(it: Cell)
      requires Valid() && it in cache_list_
      modifies this`cache_list_, this`es
      ensures Valid() && cache_list_ == Spliced(old(cache_list_), Position(old(cache_list_), it))
      ensures es == ToFront(old(es), Position(old(cache_list_), it), it.value)
    {
      var p := Position(cache_list_, it);
      SplicedOk(cache_map_, cache_list_, p);
      SplicedLists(cache_list_, es, p);
      cache_list_, es := Spliced(cache_list_, p), ToFront(es, p, it.value);
    }

    method Put(key: int, value: int)
      requires Valid()
      modifies this, cache_list_
      ensures Valid() && fresh(set c | c in cache_list_ && c !in old(cache_list_))
      ensures es == ModelPut(old(es), capacity_, key, value)
    {
      LocatedCell(cache_map_, cache_list_, es, key);
      if key in cache_map_ {
        Update(cache_map_[key], value);
      } else {
        if |cache_list_| == capacity_ {
          PopBack();
        }
        EmplaceFront(key, value);
      }
    }

    /** The branch of put for a cached key. */
    method Update(it: Cell, value: int)
      requires Valid() && it in cache_list_
      modifies this`cache_list_, this`es, it
      ensures Valid() && (forall c :: c in cache_list_ ==> c in old(cache_list_))
      ensures es == ToFront(old(es), Position(old(cache_list_), it), value)
    {
      Splice(it);
      SetFront(it, value);
    }

    /** it->second->second = value, for the element now in front. */
    method SetFront(it: Cell, value: int)
      requires Valid() && cache_list_ != [] && it == cache_list_[0]
      modifies this`es, it
      ensures Valid() && es == [Pair(it.key, value)] + old(es)[1..]
    {
      it.value := value;
      es := [Pair(it.key, value)] + es[1..];
    }

    /** Room is made by dropping the last element and its iterator. */
    method PopBack()
      requires Valid() && cache_list_ != []
      modifies this
      ensures Valid() && cache_list_ == old(cache_list_)[..|old(cache_list_)| - 1] && es == old(es)[..|old(es)| - 1]
      ensures forall k :: k !in old(cache_map_) ==> k !in cache_map_
    {
      PoppedOk(cache_map_, cache_list_);
      var old_key := cache_list_[|cache_list_| - 1].key;
      cache_list_ := cache_list_[..|cache_list_| - 1];
      cache_map_ := cache_map_ - {old_key};
      es := es[..|es| - 1];
    }

    method EmplaceFront(key: int, value: int)
      requires Valid() && key !in cache_map_ && |cache_list_| < capacity_
      modifies this
      ensures Valid() && es == [Pair(key, value)] + old(es)
      ensures fresh(cache_list_[0]) && cache_list_[1..] == old(cache_list_)
    {
      var c := new Cell(key, value);
      PushedOk(cache_map_, cache_list_, c);
      PushedLists(cache_list_, es, c);
      cache_list_ := [c] + cache_list_;
      cache_map_ := cache_map_[key := c];
      es := [Pair(key, value)] + es;
    }
  }

  // ---------------------------------------------------------------- whole runs

  /** The answers to the gets of a run, and the last state, from an empty cache. */
  ghost function ModelRun(capacity: nat, ops: seq<Op>): (seq<Pair>, seq<int>)
    decreases |ops|
  {
    if ops == [] then ([], [])
    else
      ModelStep(capacity, ModelRun(capacity, ops[..|ops| - 1]), ops[|ops| - 1])
  }

  ghost function ModelStep(capacity: nat, s: (seq<Pair>, seq<int>), op: Op): (seq<Pair>, seq<int>) {
    match op
    case Get(key) => (ModelGet(s.0, key).0, s.1 + [ModelGet(s.0, key).1])
    case Put(key, val) => (ModelPut(s.0, capacity, key, val), s.1)
  }

  // ---------------------------------------------------------------- what the simple cache keeps

  /** The entries stand in the order of their keys' last operations, the latest first, and
      hold the values last put. */
  ghost predicate ByRecency(es: seq<Pair>, ops: seq<Op>) {
    && (forall i, j :: 0 <= i < j < |es| ==> LastOp(ops, es[j].key) < LastOp(ops, es[i].key))
    && (forall i :: 0 <= i < |es| ==> LastPut(ops, es[i].key, es[i].val))
  }

  /** Entries of other keys keep their order when op is added. */
  lemma {:induction false} OthersKeep(es: seq<Pair>, ops: seq<Op>, op: Op)
    requires ByRecency(es, ops) && forall j :: 0 <= j < |es| ==> es[j].key != op.key
    ensures ByRecency(es, ops + [op])
  {
    forall i | 0 <= i < |es|
      ensures LastOp(ops + [op], es[i].key) == LastOp(ops, es[i].key) && LastPut(ops + [op], es[i].key, es[i].val)
    {
      OneMoreOp(ops, op, es[i].key, es[i].val);
    }
  }

  lemma {:induction false} FrontNewest(es: seq<Pair>, ops: seq<Op>, op: Op, val: int)
    requires ByRecency(es, ops) && forall j :: 0 <= j < |es| ==> es[j].key != op.key
    requires if op.Put? then op.val == val else LastPut(ops, op.key, val)
    ensures ByRecency([Pair(op.key, val)] + es, ops + [op])
  {
    OthersKeep(es, ops, op);
    assert (ops + [op])[..|ops|] == ops;
    forall j | 0 <= j < |es| ensures LastOp(ops + [op], es[j].key) < |ops| {
      OneMoreOp(ops, op, es[j].key, es[j].val);
    }
  }

  lemma {:induction false} DropEntry(es: seq<Pair>, ops: seq<Op>, i: nat, rest: seq<Pair>)
    requires ByRecency(es, ops) && i < |es| && rest == Without(es, i)
    ensures ByRecency(rest, ops)
    ensures forall j :: 0 <= j < |rest| ==> rest[j].key != es[i].key
  {
    forall j | 0 <= j < |rest| ensures rest[j] == es[if j < i then j else j + 1] && rest[j].key != es[i].key {
    }
  }

  lemma {:induction false} FindMiss(es: seq<Pair>, key: int, j: nat)
    requires Find(es, key) == -1 && j < |es|
    ensures es[j].key != key
  {
    if j > 0 {
      FindMiss(es[1..], key, j - 1);
    }
  }

  lemma {:induction false} TouchedMiss(es: seq<Pair>, ops: seq<Op>, op: Op, capacity: nat)
    requires ByRecency(es, ops) && Find(es, op.key) == -1
    ensures ByRecency(ModelStep(capacity, (es, []), op).0, ops + [op])
  {
    forall j | 0 <= j < |es| ensures es[j].key != op.key {
      FindMiss(es, op.key, j);
    }
    if op.Get? {
      OthersKeep(es, ops, op);
    } else if |es| >= capacity && es != [] {
      DropEntry(es, ops, |es| - 1, es[..|es| - 1]);
      FrontNewest(es[..|es| - 1], ops, op, op.val);
    } else {
      FrontNewest(es, ops, op, op.val);
    }
  }

  lemma {:induction false} TouchedHit(es: seq<Pair>, ops: seq<Op>, op: Op, capacity: nat)
    requires ByRecency(es, ops) && Find(es, op.key) >= 0
    ensures ByRecency(ModelStep(capacity, (es, []), op).0, ops + [op])
  {
    var i := Find(es, op.key);
    var val, rest := if op.Put? then op.val else es[i].val, Without(es, i);
    DropEntry(es, ops, i, rest);
    FrontNewest(rest, ops, op, val);
  }

  /** One get or put keeps the entries in order of recency, whatever it drops. */
  lemma {:induction false} Touched(es: seq<Pair>, ops: seq<Op>, op: Op, capacity: nat)
    requires ByRecency(es, ops)
    ensures ByRecency(ModelStep(capacity, (es, []), op).0, ops + [op])
  {
    if Find(es, op.key) == -1 {
      TouchedMiss(es, ops, op, capacity);
    } else {
      TouchedHit(es, ops, op, capacity);
    }
  }

  /** The entries a run leaves. */
  ghost function Entries(capacity: nat, ops: seq<Op>): seq<Pair> {
    ModelRun(capacity, ops).0
  }

  lemma {:induction false} EntriesStep(capacity: nat, ops: seq<Op>, op: Op)
    ensures Entries(capacity, ops + [op]) == ModelStep(capacity, (Entries(capacity, ops), []), op).0
  {
    assert (ops + [op])[..|ops|] == ops;
  }

  lemma {:induction false} StepSize(es: seq<Pair>, capacity: nat, op: Op)
    requires |es| <= capacity && capacity >= 1
    ensures |ModelStep(capacity, (es, []), op).0| <= capacity
  {
  }

  /** After every run the cache is bounded, most recent first, and up to date. */
  lemma {:induction false} RunRecency(capacity: nat, ops: seq<Op>)
    requires capacity >= 1
    ensures |Entries(capacity, ops)| <= capacity && ByRecency(Entries(capacity, ops), ops)
  {
    if ops != [] {
      var before, op := ops[..|ops| - 1], ops[|ops| - 1];
      assert ops == before + [op];
      var es := Entries(capacity, before);
      RunRecency(capacity, before);
      EntriesStep(capacity, before, op);
      StepSize(es, capacity, op);
      Touched(es, before, op, capacity);
    }
  }

  predicate HasKey(es: seq<Pair>, key: int) {
    exists i :: 0 <= i < |es| && es[i].key == key
  }

  /** The last operation on key is older than that on any other cached key. */
  predicate Oldest(es: seq<Pair>, ops: seq<Op>, key: int) {
    forall i :: 0 <= i < |es| && es[i].key != key ==> LastOp(ops, key) < LastOp(ops, es[i].key)
  }

  lemma {:induction false} FindHasKey(es: seq<Pair>, key: int)
    ensures Find(es, key) >= 0 <==> HasKey(es, key)
  {
    if Find(es, key) == -1 {
      forall j | 0 <= j < |es| ensures es[j].key != key {
        FindMiss(es, key, j);
      }
    }
  }

  lemma {:induction false} ToFrontKeys(es: seq<Pair>, i: nat, val: int, key: int)
    requires i < |es|
    ensures HasKey(ToFront(es, i, val), key) <==> HasKey(es, key)
  {
    var f := ToFront(es, i, val);
    if HasKey(es, key) {
      var j :| 0 <= j < |es| && es[j].key == key;
      assert f[if j == i then 0 else if j < i then j + 1 else j].key == key;
    }
    if HasKey(f, key) {
      var j :| 0 <= j < |f| && f[j].key == key;
      assert es[if j == 0 then i else if j <= i then j - 1 else j].key == key;
    }
  }

  lemma {:induction false} FrontKeys(es: seq<Pair>, p: Pair, key: int)
    ensures HasKey([p] + es, key) <==> key == p.key || HasKey(es, key)
  {
    var f := [p] + es;
    assert f[0] == p;
    if HasKey(es, key) {
      var j :| 0 <= j < |es| && es[j].key == key;
      assert f[j + 1].key == key;
    }
  }

  /** Dropping the last entry loses exactly the key used longest ago. */
  lemma {:induction false} LastIsOldest(es: seq<Pair>, ops: seq<Op>, key: int)
    requires ByRecency(es, ops) && es != []
    ensures HasKey(es[..|es| - 1], key) <==> HasKey(es, key) && !Oldest(es, ops, key)
  {
    var n := |es| - 1;
    if HasKey(es, key) {
      var j :| 0 <= j < |es| && es[j].key == key;
      if j < n {
        assert es[..n][j].key == key;
        assert LastOp(ops, es[n].key) < LastOp(ops, es[j].key);
      } else {
        forall i | 0 <= i < n ensures es[..n][i].key != key {
          assert LastOp(ops, es[n].key) < LastOp(ops, es[i].key);
        }
      }
    }
  }

  /** Which keys one operation keeps. */
  ghost predicate Keeps(es: seq<Pair>, ops: seq<Op>, op: Op, capacity: nat, key: int) {
    || (op.Put? && op.key == key)
    || (HasKey(es, key) && !(op.Put? && !HasKey(es, op.key) && |es| == capacity && Oldest(es, ops, key)))
  }

  lemma {:induction false} KeptHit(es: seq<Pair>, ops: seq<Op>, op: Op, capacity: nat, key: int)
    requires Find(es, op.key) >= 0
    ensures HasKey(ModelStep(capacity, (es, []), op).0, key) <==> Keeps(es, ops, op, capacity, key)
  {
    var i := Find(es, op.key);
    FindHasKey(es, op.key);
    ToFrontKeys(es, i, if op.Put? then op.val else es[i].val, key);
  }

  lemma {:induction false} KeptMiss(es: seq<Pair>, ops: seq<Op>, op: Op, capacity: nat, key: int)
    requires ByRecency(es, ops) && |es| <= capacity && capacity >= 1 && Find(es, op.key) == -1
    ensures HasKey(ModelStep(capacity, (es, []), op).0, key) <==> Keeps(es, ops, op, capacity, key)
  {
    FindHasKey(es, op.key);
    if op.Put? && |es| == capacity {
      FrontKeys(es[..|es| - 1], Pair(op.key, op.val), key);
      LastIsOldest(es, ops, key);
    } else if op.Put? {
      FrontKeys(es, Pair(op.key, op.val), key);
    }
  }

  /** Which keys a run keeps: the key just put, and every key cached before, except that a
      put of an uncached key to a full cache evicts the one whose last operation is oldest. */
  lemma {:induction false} Retained(capacity: nat, ops: seq<Op>, op: Op, key: int)
    requires capacity >= 1
    ensures Entries(capacity, []) == []
    ensures HasKey(Entries(capacity, ops + [op]), key) <==> Keeps(Entries(capacity, ops), ops, op, capacity, key)
  {
    var es := Entries(capacity, ops);
    RunRecency(capacity, ops);
    EntriesStep(capacity, ops, op);
    if Find(es, op.key) >= 0 {
      KeptHit(es, ops, op, capacity, key);
    } else {
      KeptMiss(es, ops, op, capacity, key);
    }
  }

  /** Which keys are cached after a run. */
  ghost function Caches(capacity: nat): (seq<Op>, int) -> bool {
    (ops, key) => HasKey(Entries(capacity, ops), key)
  }

  /** What a get answers after a run: the value last put for a cached key, else -1. */
  lemma {:induction false} Answered(capacity: nat, ops: seq<Op>, key: int)
    requires capacity >= 1
    ensures AnswerOk(ops, key, Caches(capacity)(ops, key), ModelGet(Entries(capacity, ops), key).1)
  {
    RunRecency(capacity, ops);
    FindHasKey(Entries(capacity, ops), key);
  }

  /** Every get of a run is answered with the value last put if its key is cached then. */
  lemma {:induction false} RunAnswers(capacity: nat, ops: seq<Op>)
    requires capacity >= 1
    ensures AllAnswered(ops, ModelRun(capacity, ops).1, Caches(capacity))
  {
    if ops != [] {
      var before, op := ops[..|ops| - 1], ops[|ops| - 1];
      assert ops == before + [op];
      var (es, answers) := ModelRun(capacity, before);
      RunAnswers(capacity, before);
      Answered(capacity, before, op.key);
      OneMoreAnswer(before, op, answers, if op.Get? then [ModelGet(es, op.key).1] else [], Caches(capacity));
    }
  }

  method ServeLinked(c: LRUCache, op: Op, answers0: seq<int>) returns (answers: seq<int>)
    requires c.Valid()
    modifies c, c.chain
    ensures c.Valid() && fresh(set n | n in c.chain && n !in old(c.chain))
    ensures (c.es, answers) == ModelStep(c.capacity, (old(c.es), answers0), op)
  {
    answers := answers0;
    match op {
      case Get(key) =>
        var a := c.Get(key);
        answers := answers + [a];
      case Put(key, val) =>
        c.Put(key, val);
    }
  }

  method ServeListed(c: ListLRUCache, op: Op, answers0: seq<int>) returns (answers: seq<int>)
    requires c.Valid()
    modifies c, c.cache_list_
    ensures c.Valid() && fresh(set x | x in c.cache_list_ && x !in old(c.cache_list_))
    ensures (c.es, answers) == ModelStep(c.capacity_, (old(c.es), answers0), op)
  {
    answers := answers0;
    match op {
      case Get(key) =>
        var a := c.Get(key);
        answers := answers + [a];
      case Put(key, val) =>
        c.Put(key, val);
    }
  }

  /** The hand-linked cache answers every run as the simple cache does: a get of a key cached
      then receives the value last put, every other get -1. */
  method RunLinked(capacity: int, ops: seq<Op>) returns (answers: seq<int>)
    requires capacity >= 1
    ensures answers == ModelRun(capacity, ops).1 && AllAnswered(ops, answers, Caches(capacity))
  {
    var c := new LRUCache(capacity);
    answers := [];
    var i := 0;
    while i < |ops|
      invariant 0 <= i <= |ops| && (c.es, answers) == ModelRun(capacity, ops[..i])
      invariant c.Valid() && c.capacity == capacity && fresh(c) && fresh(set n | n in c.chain)
    {
      assert ops[..i + 1][..i] == ops[..i];
      answers := ServeLinked(c, ops[i], answers);
      i := i + 1;
    }
    assert ops[..i] == ops;
    RunAnswers(capacity, ops);
  }

  /** So does the list-based one: both answer every run alike. */
  method RunListed(capacity: int, ops: seq<Op>) returns (answers: seq<int>)
    requires capacity >= 1
    ensures answers == ModelRun(capacity, ops).1 && AllAnswered(ops, answers, Caches(capacity))
  {
    var c := new ListLRUCache(capacity);
    answers := [];
    var i := 0;
    while i < |ops|
      invariant 0 <= i <= |ops| && (c.es, answers) == ModelRun(capacity, ops[..i])
      invariant c.Valid() && c.capacity_ == capacity && fresh(c) && fresh(set x | x in c.cache_list_)
    {
      assert ops[..i + 1][..i] == ops[..i];
      answers := ServeListed(c, ops[i], answers);
      i := i + 1;
    }
    assert ops[..i] == ops;
    RunAnswers(capacity, ops);
  }
}
