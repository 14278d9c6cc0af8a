/** The least-frequently-used cache with two tables and a running minimum
    frequency, against a plain table of use counts and time stamps. */
module LFU {
  import opened Common
  import opened CacheOps

  /** An element of one of the lists; an iterator is a reference to it. */
  class Node {
    const key: int
    const val: int
    const freq: int
    constructor (k: int, v: int, f: int)
      ensures key == k && val == v && freq == f
    {
      key, val, freq := k, v, f;
    }
  }

  // ---------------------------------------------------------------- the simple cache

  /** A cached value, how often its key was used, and when last. */
  datatype Entry = Entry(val: int, uses: int, last: nat)

  /** The specification: entries with time stamps, and a clock. */
  datatype Model = Model(entries: map<int, Entry>, clock: nat)

  /** Stamps are past, and no two keys were last used at the same time. */
  ghost predicate Stamped(m: Model) {
    && (forall k :: k in m.entries ==> m.entries[k].last < m.clock && m.entries[k].uses >= 1)
    && (forall k, k' :: k in m.entries && k' in m.entries && m.entries[k].last == m.entries[k'].last ==> k == k')
  }

  predicate LessUsed(a: Entry, b: Entry) {
    a.uses < b.uses || (a.uses == b.uses && a.last < b.last)
  }

  /** The key to evict: fewest uses and, among those, the oldest last use. */
  ghost predicate IsVictim(es: map<int, Entry>, k: int) {
    k in es && forall k' :: k' in es && k' != k ==> LessUsed(es[k], es[k'])
  }

  lemma SomeKey(es: map<int, Entry>)
    ensures es.Keys == {} || exists k :: k in es
  {
    if forall k :: k !in es {
      assert es.Keys == {};
    }
  }

  lemma {:induction false} VictimExists(m: Model)
    requires Stamped(m) && m.entries.Keys != {}
    ensures exists k :: IsVictim(m.entries, k)
    decreases |m.entries|
  {
    SomeKey(m.entries);
    var k :| k in m.entries;
    var rest := m.entries - {k};
    if rest.Keys == {} {
      assert forall k' :: k' in m.entries && k' != k ==> k' in rest;
      assert IsVictim(m.entries, k);
    } else {
      assert rest.Keys == m.entries.Keys - {k};
      VictimExists(Model(rest, m.clock));
      var v :| IsVictim(rest, v);
      assert forall k' :: k' in m.entries && k' != k ==> k' in rest;
      assert IsVictim(m.entries, if LessUsed(m.entries[k], m.entries[v]) then k else v);
    }
  }

  ghost function Victim(m: Model): (k: int)
    requires Stamped(m) && m.entries.Keys != {}
    ensures IsVictim(m.entries, k)
  {
    VictimExists(m);
    var k :| IsVictim(m.entries, k);
    k
  }

  /** Using a key: one more use, just now, with the given value. */
  ghost function Use(m: Model, key: int, val: int): (r: Model)
    requires Stamped(m)
    ensures Stamped(r)
  {
    var uses := if key in m.entries then m.entries[key].uses + 1 else 1;
    Model(m.entries[key := Entry(val, uses, m.clock)], m.clock + 1)
  }

  ghost function Evict(m: Model): (r: Model)
    requires Stamped(m) && m.entries.Keys != {}
    ensures Stamped(r)
  {
    Model(m.entries - {Victim(m)}, m.clock)
  }

  ghost function ModelGet(m: Model, key: int): (r: (Model, int))
    requires Stamped(m)
    ensures Stamped(r.0)
  {
    if key in m.entries then (Use(m, key, m.entries[key].val), m.entries[key].val) else (m, -1)
  }

  ghost function ModelPut(m: Model, capacity: int, key: int, val: int): (r: Model)
    requires Stamped(m)
    ensures Stamped(r)
  {
    if capacity == 0 then m
    else if key !in m.entries && m.entries.Keys != {} && |m.entries| == capacity then Use(Evict(m), key, val)
    else Use(m, key, val)
  }

  /** Capacity 0 answers -1 to everything; a negative capacity never fills up. */
  ghost function AnswerGet(m: Model, capacity: int, key: int): (r: (Model, int))
    requires Stamped(m)
    ensures Stamped(r.0)
  {
    if capacity == 0 then (m, -1) else ModelGet(m, key)
  }

  // ---------------------------------------------------------------- the two tables

  predicate Shows(n: Node, k: int, e: Entry) {
    n.key == k && n.val == e.val && n.freq == e.uses
  }

  /** l holds elements of keys used f times, most recently used first, and the iterator of
      each key is its element. */
  ghost predicate ListOk(l: seq<Node>, f: int, keys: map<int, Node>, es: map<int, Entry>) {
    && l != []
    && (forall i :: 0 <= i < |l| ==> ElementOk(l[i], f, keys, es))
    && (forall i, j :: 0 <= i < j < |l| ==> es[l[i].key].last > es[l[j].key].last)
  }

  ghost predicate ElementOk(n: Node, f: int, keys: map<int, Node>, es: map<int, Entry>) {
    n.key in es && n.key in keys && keys[n.key] == n && Shows(n, n.key, es[n.key]) && n.freq == f
  }

  /** The tables hold exactly the entries: every list is in order, and every key's iterator
      is valid and points into the list of its frequency. */
  ghost predicate TablesOk(keys: map<int, Node>, freqs: map<int, seq<Node>>, es: map<int, Entry>) {
    && keys.Keys == es.Keys
    && (forall k {:trigger KeyOk(keys, freqs, es, k)} :: k in es ==> KeyOk(keys, freqs, es, k))
    && (forall f {:trigger ListOk(freqs[f], f, keys, es)} :: f in freqs ==> ListOk(freqs[f], f, keys, es))
  }

  ghost predicate KeyOk(keys: map<int, Node>, freqs: map<int, seq<Node>>, es: map<int, Entry>, k: int)
    requires k in keys && k in es
  {
    Shows(keys[k], k, es[k]) && es[k].uses in freqs && keys[k] in freqs[es[k].uses]
  }

  /** minfreq is the smallest frequency in use. */
  ghost predicate MinOk(minfreq: int, freqs: map<int, seq<Node>>) {
    freqs.Keys != {} ==> minfreq in freqs && forall f :: f in freqs ==> minfreq <= f
  }

  /** Tables and minimum frequency as they must be for model m. */
  ghost predicate Sound(keys: map<int, Node>, freqs: map<int, seq<Node>>, minfreq: int, m: Model) {
    Stamped(m) && TablesOk(keys, freqs, m.entries) && MinOk(minfreq, freqs)
  }

  /** Erasing a node, and its list when that becomes empty. */
  function Erased(freqs: map<int, seq<Node>>, f: int, i: nat): map<int, seq<Node>>
    requires f in freqs && i < |freqs[f]|
  {
    if |freqs[f]| == 1 then freqs - {f} else freqs[f := Without(freqs[f], i)]
  }

  /** Pushing a node to the front of its frequency's list. */
  function Pushed(freqs: map<int, seq<Node>>, n: Node): map<int, seq<Node>> {
    freqs[n.freq := [n] + (if n.freq in freqs then freqs[n.freq] else [])]
  }

  lemma {:induction false} WithoutOk(l: seq<Node>, f: int, keys: map<int, Node>, es: map<int, Entry>, i: nat)
    requires ListOk(l, f, keys, es) && i < |l| && |l| > 1
    ensures ListOk(Without(l, i), f, keys - {l[i].key}, es - {l[i].key})
  {
    var w := Without(l, i);
    assert ElementOk(l[i], f, keys, es);
    forall j | 0 <= j < |w|
      ensures w[j] == l[if j < i then j else j + 1] && ElementOk(w[j], f, keys - {l[i].key}, es - {l[i].key})
    {
      assert ElementOk(l[if j < i then j else j + 1], f, keys, es);
    }
  }

  /** A list that does not hold the key is not concerned. */
  lemma {:induction false} OtherListOk(l: seq<Node>, f: int, keys: map<int, Node>, es: map<int, Entry>, k: int)
    requires ListOk(l, f, keys, es) && k in es && es[k].uses != f
    ensures ListOk(l, f, keys - {k}, es - {k})
  {
    forall j | 0 <= j < |l| ensures ElementOk(l[j], f, keys - {k}, es - {k}) {
      assert ElementOk(l[j], f, keys, es);
    }
  }

  /** Taking a key out of the tables. */
  lemma {:induction false} EraseOk(keys: map<int, Node>, freqs: map<int, seq<Node>>, es: map<int, Entry>, f: int,
                                   i: nat)
    requires TablesOk(keys, freqs, es) && f in freqs && i < |freqs[f]|
    ensures var k := freqs[f][i].key; k in es && TablesOk(keys - {k}, Erased(freqs, f, i), es - {k})
  {
    var l := freqs[f];
    var k := l[i].key;
    var freqs' := Erased(freqs, f, i);
    assert ListOk(l, f, keys, es) && ElementOk(l[i], f, keys, es);
    forall g | g in freqs' ensures ListOk(freqs'[g], g, keys - {k}, es - {k}) {
      assert ListOk(freqs[g], g, keys, es);
      if g == f {
        WithoutOk(l, f, keys, es, i);
      } else {
        OtherListOk(freqs[g], g, keys, es, k);
      }
    }
    var keys', es' := keys - {k}, es - {k};
    forall k' | k' in es' ensures KeyOk(keys', freqs', es', k') {
      assert KeyOk(keys, freqs, es, k');
      StillListed(freqs, f, i, keys[k']);
    }
  }

  lemma {:induction false} StillListed(freqs: map<int, seq<Node>>, f: int, i: nat, n: Node)
    requires f in freqs && i < |freqs[f]| && n.freq in freqs && n in freqs[n.freq] && n != freqs[f][i]
    ensures n.freq in Erased(freqs, f, i) && n in Erased(freqs, f, i)[n.freq]
  {
    if n.freq == f {
      var j :| 0 <= j < |freqs[f]| && freqs[f][j] == n;
      assert Without(freqs[f], i)[if j < i then j else j - 1] == n;
    }
  }

  lemma {:induction false} UntouchedOk(l: seq<Node>, f: int, keys: map<int, Node>, es: map<int, Entry>, n: Node,
                                       e: Entry)
    requires ListOk(l, f, keys, es) && n.key !in es
    ensures ListOk(l, f, keys[n.key := n], es[n.key := e])
  {
    forall j | 0 <= j < |l| ensures ElementOk(l[j], f, keys[n.key := n], es[n.key := e]) {
      assert ElementOk(l[j], f, keys, es);
    }
  }

  lemma {:induction false} FrontOk(l: seq<Node>, f: int, keys: map<int, Node>, es: map<int, Entry>, n: Node, e: Entry)
    requires l == [] || ListOk(l, f, keys, es)
    requires n.key !in es && Shows(n, n.key, e) && e.uses == f && forall k :: k in es ==> es[k].last < e.last
    ensures ListOk([n] + l, f, keys[n.key := n], es[n.key := e])
  {
    var l', keys', es' := [n] + l, keys[n.key := n], es[n.key := e];
    assert ElementOk(n, f, keys', es');
    forall j | 0 < j < |l'| ensures l'[j] == l[j - 1] && ElementOk(l'[j], f, keys', es') && l'[j].key in es {
      assert ElementOk(l[j - 1], f, keys, es);
    }
  }

  /** Putting a fresh key into the tables, newer than everything there. */
  lemma {:induction false} PushOk(keys: map<int, Node>, freqs: map<int, seq<Node>>, es: map<int, Entry>, n: Node,
                                  e: Entry)
    requires TablesOk(keys, freqs, es) && n.key !in es && Shows(n, n.key, e)
    requires forall k :: k in es ==> es[k].last < e.last
    ensures TablesOk(keys[n.key := n], Pushed(freqs, n), es[n.key := e])
  {
    var keys', freqs', es' := keys[n.key := n], Pushed(freqs, n), es[n.key := e];
    forall g | g in freqs' ensures ListOk(freqs'[g], g, keys', es') {
      if g in freqs {
        assert ListOk(freqs[g], g, keys, es);
      }
      if g == n.freq {
        FrontOk(if g in freqs then freqs[g] else [], g, keys, es, n, e);
      } else {
        UntouchedOk(freqs[g], g, keys, es, n, e);
      }
    }
    forall k | k in es' ensures KeyOk(keys', freqs', es', k) {
      if k != n.key {
        assert KeyOk(keys, freqs, es, k);
      }
      StillPushed(freqs, n, keys'[k]);
    }
  }

  lemma {:induction false} StillPushed(freqs: map<int, seq<Node>>, n: Node, x: Node)
    requires x == n || (x.freq in freqs && x in freqs[x.freq])
    ensures x.freq in Pushed(freqs, n) && x in Pushed(freqs, n)[x.freq]
  {
    var l := Pushed(freqs, n)[n.freq];
    assert l[0] == n;
    if x != n && x.freq == n.freq {
      var j :| 0 <= j < |freqs[x.freq]| && freqs[x.freq][j] == x;
      assert l[j + 1] == x;
    }
  }

  /** The last node of the minimum frequency's list belongs to the victim. */
  lemma {:induction false} BackIsVictim(keys: map<int, Node>, freqs: map<int, seq<Node>>, minfreq: int,
                                        es: map<int, Entry>)
    requires TablesOk(keys, freqs, es) && minfreq in freqs && (forall f :: f in freqs ==> minfreq <= f)
    ensures freqs[minfreq] != [] && IsVictim(es, freqs[minfreq][|freqs[minfreq]| - 1].key)
  {
    var l := freqs[minfreq];
    assert ListOk(l, minfreq, keys, es) && ElementOk(l[|l| - 1], minfreq, keys, es);
    var v := l[|l| - 1].key;
    forall k | k in es && k != v ensures LessUsed(es[v], es[k]) {
      assert KeyOk(keys, freqs, es, k);
      if es[k].uses == minfreq {
        var j := IndexOf(l, keys[k]);
        assert ElementOk(l[j], minfreq, keys, es);
      }
    }
  }

  lemma MinInUse(keys: map<int, Node>, freqs: map<int, seq<Node>>, minfreq: int, es: map<int, Entry>)
    requires TablesOk(keys, freqs, es) && MinOk(minfreq, freqs) && es.Keys != {}
    ensures minfreq in freqs && forall f :: f in freqs ==> minfreq <= f
  {
    SomeKey(es);
    var k :| k in es;
    assert KeyOk(keys, freqs, es, k);
  }

  lemma VictimUnique(es: map<int, Entry>, k: int, k': int)
    requires IsVictim(es, k) && IsVictim(es, k')
    ensures k == k'
  {
  }

  /** After a use of a key of frequency f, the minimum is as get and put update it. */
  lemma {:induction false} UseMin(freqs: map<int, seq<Node>>, minfreq: int, f: int, i: nat, n: Node)
    requires MinOk(minfreq, freqs) && f in freqs && i < |freqs[f]| && n.freq == f + 1
    ensures MinOk(if |freqs[f]| == 1 && minfreq == f then minfreq + 1 else minfreq, Pushed(Erased(freqs, f, i), n))
  {
  }

  /** A use of a key, on both sides: its node moves to the next frequency. */
  lemma {:induction false} UseTables(keys: map<int, Node>, freqs: map<int, seq<Node>>, m: Model, node: Node, i: nat,
                                     n: Node)
    requires Stamped(m) && TablesOk(keys, freqs, m.entries) && node.key in keys && keys[node.key] == node
    requires node.freq in freqs && i < |freqs[node.freq]| && freqs[node.freq][i] == node
    requires n.key == node.key && n.freq == node.freq + 1
    ensures TablesOk(keys[n.key := n], Pushed(Erased(freqs, node.freq, i), n), Use(m, n.key, n.val).entries)
  {
    var es, key := m.entries, node.key;
    assert KeyOk(keys, freqs, es, key);
    var e := Entry(n.val, n.freq, m.clock);
    EraseOk(keys, freqs, es, node.freq, i);
    PushOk(keys - {key}, Erased(freqs, node.freq, i), es - {key}, n, e);
    assert (keys - {key})[key := n] == keys[key := n];
    assert (es - {key})[key := e] == es[key := e];
  }

  lemma {:induction false} UseOk(keys: map<int, Node>, freqs: map<int, seq<Node>>, minfreq: int, m: Model, node: Node,
                                 i: nat, n: Node, minfreq': int)
    requires Sound(keys, freqs, minfreq, m) && node.key in keys && keys[node.key] == node
    requires node.freq in freqs && i < |freqs[node.freq]| && freqs[node.freq][i] == node
    requires n.key == node.key && n.freq == node.freq + 1
    requires minfreq' == if |freqs[node.freq]| == 1 && minfreq == node.freq then minfreq + 1 else minfreq
    ensures Sound(keys[n.key := n], Pushed(Erased(freqs, node.freq, i), n), minfreq', Use(m, n.key, n.val))
    ensures |keys[n.key := n]| == |keys|
  {
    UseTables(keys, freqs, m, node, i, n);
    UseMin(freqs, minfreq, node.freq, i, n);
    assert keys[n.key := n].Keys == keys.Keys;
  }

  /** An eviction, on both sides. */
  lemma {:induction false} EvictOk(keys: map<int, Node>, freqs: map<int, seq<Node>>, minfreq: int, m: Model)
    requires Stamped(m) && TablesOk(keys, freqs, m.entries) && MinOk(minfreq, freqs) && m.entries.Keys != {}
    ensures minfreq in freqs && freqs[minfreq] != []
    ensures var i := |freqs[minfreq]| - 1;
            freqs[minfreq][i].key == Victim(m)
            && TablesOk(keys - {Victim(m)}, Erased(freqs, minfreq, i), Evict(m).entries)
  {
    MinInUse(keys, freqs, minfreq, m.entries);
    BackIsVictim(keys, freqs, minfreq, m.entries);
    var i := |freqs[minfreq]| - 1;
    VictimUnique(m.entries, freqs[minfreq][i].key, Victim(m));
    EraseOk(keys, freqs, m.entries, minfreq, i);
  }

  /** Nothing is used less than once, so 1 is the minimum as soon as it occurs. */
  lemma {:induction false} OneIsMin(keys: map<int, Node>, freqs: map<int, seq<Node>>, m: Model)
    requires Stamped(m) && TablesOk(keys, freqs, m.entries) && 1 in freqs
    ensures MinOk(1, freqs)
  {
    forall f | f in freqs ensures 1 <= f {
      assert ListOk(freqs[f], f, keys, m.entries) && ElementOk(freqs[f][0], f, keys, m.entries);
    }
  }

  function IndexOf(l: seq<Node>, n: Node): (i: nat)
    requires n in l
    ensures i < |l| && l[i] == n
  {
    if l[0] == n then 0 else 1 + IndexOf(l[1..], n)
  }

  /** Erase the node, drop its list and raise minfreq if that was the last of the least
      frequency, and push it to the front of the next list. */
  method Moved(keys0: map<int, Node>, freqs0: map<int, seq<Node>>, minfreq: int, node: Node, i: nat, val: int,
               ghost m: Model)
    returns (keys: map<int, Node>, freqs: map<int, seq<Node>>, least: int)
    requires Sound(keys0, freqs0, minfreq, m) && node.key in keys0 && keys0[node.key] == node
    requires node.freq in freqs0 && i < |freqs0[node.freq]| && freqs0[node.freq][i] == node
    ensures Sound(keys, freqs, least, Use(m, node.key, val)) && |keys| == |keys0|
  {
    var freq := node.freq;
    var n := new Node(node.key, val, freq + 1);
    least := minfreq;
    if |freqs0[freq]| == 1 && least == freq {
      least := least + 1;
    }
    UseOk(keys0, freqs0, minfreq, m, node, i, n, least);
    freqs := Erased(freqs0, freq, i);
    freqs := Pushed(freqs, n);
    keys := keys0[node.key := n];
  }

  class LFUCache {
    var minfreq: int
    const capacity: int
    /** The iterators: which element of freq_table a key stands for. */
    var key_table: map<int, Node>
    var freq_table: map<int, seq<Node>>
    ghost var model: Model

    ghost predicate Valid()
      reads this
    {
      && Sound(key_table, freq_table, minfreq, model)
      && (capacity >= 0 ==> |key_table| <= capacity)
    }

    constructor (cap: int)
      ensures Valid() && capacity == cap && model == Model(map[], 0)
    {
      minfreq := 0;
      capacity := cap;
      key_table := map[];
      freq_table := map[];
      model := Model(map[], 0);
    }

    method Get(key: int) returns (r: int)
      requires Valid()
      modifies this
      ensures Valid()
      ensures (model, r) == AnswerGet(old(model), capacity, key)
    {
      if capacity == 0 {
        return -1;
      }
      if key !in key_table {
        return -1;
      }
      var node := key_table[key];
      assert KeyOk(key_table, freq_table, model.entries, key);
      MoveUp(node, node.val);
      return node.val;
    }

    method Put(key: int, value: int)
      requires Valid()
      modifies this
      ensures Valid()
      ensures model == ModelPut(old(model), capacity, key, value)
    {
      if capacity == 0 {
        return;
      }
      if key !in key_table {
        if |key_table| == capacity {
          EvictBack();
        }
        var n := new Node(key, value, 1);
        PushOk(key_table, freq_table, model.entries, n, Entry(value, 1, model.clock));
        freq_table := Pushed(freq_table, n);
        key_table := key_table[key := n];
        minfreq := 1;
        model := Use(model, key, value);
        OneIsMin(key_table, freq_table, model);
      } else {
        assert KeyOk(key_table, freq_table, model.entries, key);
        MoveUp(key_table[key], value);
      }
    }

    /** The part get and put share: node moves to the next frequency's list. */
    method MoveUp(node: Node, val: int)
      requires Valid() && node.key in key_table && key_table[node.key] == node
      modifies this
      ensures Valid() && model == Use(old(model), node.key, val)
    {
      var i := Locate(node);
      var keys, freqs, least := Moved(key_table, freq_table, minfreq, node, i, val, model);
      key_table, freq_table, minfreq := keys, freqs, least;
      model := Use(model, node.key, val);
    }

    /** Dereferencing an iterator: where its node stands in its list. */
    method Locate(node: Node) returns (i: nat)
      requires Valid() && node.key in key_table && key_table[node.key] == node
      ensures node.freq in freq_table && i < |freq_table[node.freq]| && freq_table[node.freq][i] == node
    {
      assert KeyOk(key_table, freq_table, model.entries, node.key);
      i := IndexOf(freq_table[node.freq], node);
    }

    /** Making room: the back of the minimum frequency's list goes. */
    method EvictBack()
      requires Valid() && |key_table| == capacity > 0
      modifies this`key_table, this`freq_table, this`model
      ensures old(model).entries.Keys != {} && model == Evict(old(model))
      ensures TablesOk(key_table, freq_table, model.entries) && |key_table| == capacity - 1
    {
      EvictOk(key_table, freq_table, minfreq, model);
      var l := freq_table[minfreq];
      var it2 := l[|l| - 1];
      key_table := key_table - {it2.key};
      freq_table := Erased(freq_table, minfreq, |l| - 1);
      model := Evict(model);
    }
  }

  // ---------------------------------------------------------------- whole runs

  /** The answers the simple cache gives to the gets of a run, and its last state. */
  ghost function ModelRun(m: Model, capacity: int, ops: seq<Op>): (r: (Model, seq<int>))
    requires Stamped(m)
    ensures Stamped(r.0)
    decreases |ops|
  {
    if ops == [] then (m, [])
    else
      ModelStep(ModelRun(m, capacity, ops[..|ops| - 1]), capacity, ops[|ops| - 1])
  }

  ghost function ModelStep(s: (Model, seq<int>), capacity: int, op: Op): (r: (Model, seq<int>))
    requires Stamped(s.0)
    ensures Stamped(r.0)
  {
    match op
    case Get(key) => var (m, a) := AnswerGet(s.0, capacity, key); (m, s.1 + [a])
    case Put(key, val) => (ModelPut(s.0, capacity, key, val), s.1)
  }

  method Serve(cache: LFUCache, op: Op, answers0: seq<int>) returns (answers: seq<int>)
    requires cache.Valid()
    modifies cache
    ensures cache.Valid() && (cache.model, answers) == ModelStep((old(cache.model), answers0), cache.capacity, op)
  {
    answers := answers0;
    match op {
      case Get(key) =>
        var a := cache.Get(key);
        answers := answers + [a];
      case Put(key, val) =>
        cache.Put(key, val);
    }
  }

  /** Every run of gets and puts is answered as the simple cache answers it: a get of a key
      cached then receives the value last put, every other get -1. */
  method Run(capacity: int, ops: seq<Op>) returns (answers: seq<int>)
    ensures answers == ModelRun(Model(map[], 0), capacity, ops).1
    ensures AllAnswered(ops, answers, Caches(capacity))
    ensures capacity == 0 ==> forall i :: 0 <= i < |answers| ==> answers[i] == -1
  {
    var cache := new LFUCache(capacity);
    answers := [];
    var i := 0;
    while i < |ops|
      invariant 0 <= i <= |ops| && fresh(cache) && cache.Valid() && cache.capacity == capacity
      invariant (cache.model, answers) == ModelRun(Model(map[], 0), capacity, ops[..i])
    {
      assert ops[..i + 1][..i] == ops[..i];
      answers := Serve(cache, ops[i], answers);
      i := i + 1;
    }
    assert ops[..i] == ops;
    RunAnswers(capacity, ops);
    if capacity == 0 {
      AllMissing(ops);
    }
  }

  // ---------------------------------------------------------------- what uses and stamps mean

  /** The entries a run leaves. */
  ghost function Entries(capacity: int, ops: seq<Op>): map<int, Entry> {
    ModelRun(Model(map[], 0), capacity, ops).0.entries
  }

  /** One operation, seen from the model before it. */
  ghost function After(m: Model, capacity: int, op: Op): (r: Model)
    requires Stamped(m)
    ensures Stamped(r)
  {
    ModelStep((m, []), capacity, op).0
  }

  lemma {:induction false} EntriesStep(capacity: int, ops: seq<Op>, op: Op)
    ensures var m := ModelRun(Model(map[], 0), capacity, ops).0;
            Stamped(m) && ModelRun(Model(map[], 0), capacity, ops + [op]).0 == After(m, capacity, op)
  {
    assert (ops + [op])[..|ops|] == ops;
  }

  /** The position of the put with which a cached key last entered. */
  ghost function Entered(capacity: int, ops: seq<Op>, key: int): (i: nat)
    requires key in Entries(capacity, ops)
    ensures i < |ops|
    decreases |ops|
  {
    var before := ops[..|ops| - 1];
    if key in Entries(capacity, before) then Entered(capacity, before, key) else |ops| - 1
  }

  /** An operation on a cached key uses it, a put of another key may enter it, and all other
      keys that stay keep their entries. */
  lemma {:induction false} AfterEntry(m: Model, capacity: int, op: Op, k: int)
    requires Stamped(m) && k in After(m, capacity, op).entries
    ensures var e := After(m, capacity, op).entries[k];
            if k != op.key then k in m.entries && e == m.entries[k]
            else if k in m.entries then
              e == Entry(if op.Put? then op.val else m.entries[k].val, m.entries[k].uses + 1, m.clock)
              || (e == m.entries[k] && capacity == 0)
            else op.Put? && e == Entry(op.val, 1, m.clock)
  {
  }

  /** With capacity 0 nothing is ever cached. */
  lemma {:induction false} NothingCached(ops: seq<Op>)
    ensures Entries(0, ops) == map[]
  {
    if ops != [] {
      NothingCached(ops[..|ops| - 1]);
      assert ops == ops[..|ops| - 1] + [ops[|ops| - 1]];
      EntriesStep(0, ops[..|ops| - 1], ops[|ops| - 1]);
    }
  }

  /** The uses of a cached key are the operations on it since it entered, and its value is
      the one last put. */
  ghost predicate Counted(capacity: int, ops: seq<Op>, k: int)
    requires k in Entries(capacity, ops)
  {
    var e := Entries(capacity, ops)[k];
    e.uses == CountOps(ops, Entered(capacity, ops, k), k) && LastPut(ops, k, e.val)
  }

  lemma {:induction false} EnteredStep(capacity: int, ops: seq<Op>, op: Op, k: int)
    requires k in Entries(capacity, ops + [op])
    ensures Entered(capacity, ops + [op], k) == if k in Entries(capacity, ops) then Entered(capacity, ops, k) else |ops|
  {
    assert (ops + [op])[..|ops|] == ops;
  }

  lemma {:induction false} NoneBefore(ops: seq<Op>, key: int)
    ensures CountOps(ops, |ops|, key) == 0
  {
  }

  lemma {:induction false} RunCounts(capacity: int, ops: seq<Op>, k: int)
    requires k in Entries(capacity, ops)
    ensures Counted(capacity, ops, k)
    decreases |ops|
  {
    NothingCached(ops);
    var before, op := ops[..|ops| - 1], ops[|ops| - 1];
    assert ops == before + [op];
    EntriesStep(capacity, before, op);
    EnteredStep(capacity, before, op, k);
    AfterEntry(ModelRun(Model(map[], 0), capacity, before).0, capacity, op, k);
    var val := Entries(capacity, ops)[k].val;
    if k in Entries(capacity, before) {
      RunCounts(capacity, before, k);
      CountOneMore(before, op, Entered(capacity, before, k), k);
    } else {
      CountOneMore(before, op, |before|, k);
      NoneBefore(before, k);
    }
    if k == op.key {
      OneMoreOnKey(before, op, val);
    } else {
      OneMoreOp(before, op, k, val);
    }
  }

  /** Which keys are cached after a run. */
  ghost function Caches(capacity: int): (seq<Op>, int) -> bool {
    (ops, key) => key in Entries(capacity, ops)
  }

  lemma {:induction false} StepAnswers(m: Model, capacity: int, answers: seq<int>, op: Op)
    requires Stamped(m)
    ensures var more := ModelStep((m, []), capacity, op).1;
            && ModelStep((m, answers), capacity, op).1 == answers + more
            && if op.Put? then more == []
               else more == [if capacity != 0 && op.key in m.entries then m.entries[op.key].val else -1]
  {
  }

  /** Every get of a run is answered with the value last put if its key is cached then. */
  lemma {:induction false} RunAnswers(capacity: int, ops: seq<Op>)
    ensures AllAnswered(ops, ModelRun(Model(map[], 0), capacity, ops).1, Caches(capacity))
    decreases |ops|
  {
    if ops != [] {
      var before, op := ops[..|ops| - 1], ops[|ops| - 1];
      assert ops == before + [op];
      var (m, answers) := ModelRun(Model(map[], 0), capacity, before);
      RunAnswers(capacity, before);
      StepAnswers(m, capacity, answers, op);
      NothingCached(before);
      if op.key in m.entries {
        RunCounts(capacity, before, op.key);
      }
      OneMoreAnswer(before, op, answers, ModelStep((m, []), capacity, op).1, Caches(capacity));
    }
  }

  /** With capacity 0 every get answers -1. */
  lemma {:induction false} AllMissing(ops: seq<Op>)
    ensures forall i :: 0 <= i < |ModelRun(Model(map[], 0), 0, ops).1| ==> ModelRun(Model(map[], 0), 0, ops).1[i] == -1
    decreases |ops|
  {
    if ops != [] {
      var before, op := ops[..|ops| - 1], ops[|ops| - 1];
      var (m, answers) := ModelRun(Model(map[], 0), 0, before);
      AllMissing(before);
      StepAnswers(m, 0, answers, op);
    }
  }

  /** Stamps order the cached keys as their last operations do. */
  lemma {:induction false} RunStamps(capacity: int, ops: seq<Op>, k: int, k': int)
    requires k in Entries(capacity, ops) && k' in Entries(capacity, ops)
    ensures Entries(capacity, ops)[k].last < Entries(capacity, ops)[k'].last <==> LastOp(ops, k) < LastOp(ops, k')
    decreases |ops|
  {
    NothingCached(ops);
    var before, op := ops[..|ops| - 1], ops[|ops| - 1];
    assert ops == before + [op];
    var m := ModelRun(Model(map[], 0), capacity, before).0;
    EntriesStep(capacity, before, op);
    AfterEntry(m, capacity, op, k);
    AfterEntry(m, capacity, op, k');
    OneMoreOnKey(before, op, 0);
    if k != op.key {
      OneMoreOp(before, op, k, 0);
    }
    if k' != op.key {
      OneMoreOp(before, op, k', 0);
    }
    if k != op.key && k' != op.key {
      RunStamps(capacity, before, k, k');
    }
  }

  /** Key k was used less than k' since it entered, or as often and not as recently. */
  ghost predicate LessUsedByRun(capacity: int, ops: seq<Op>, k: int, k': int)
    requires k in Entries(capacity, ops) && k' in Entries(capacity, ops)
  {
    var c := CountOps(ops, Entered(capacity, ops, k), k);
    var c' := CountOps(ops, Entered(capacity, ops, k'), k');
    c < c' || (c == c' && LastOp(ops, k) < LastOp(ops, k'))
  }

  /** The one every other cached key was used more than. */
  ghost predicate LeastByRun(capacity: int, ops: seq<Op>, k: int) {
    && k in Entries(capacity, ops)
    && forall k' :: k' in Entries(capacity, ops) && k' != k ==> LessUsedByRun(capacity, ops, k, k')
  }

  lemma {:induction false} VictimByRun(capacity: int, ops: seq<Op>, k: int)
    ensures IsVictim(Entries(capacity, ops), k) <==> LeastByRun(capacity, ops, k)
  {
    var es := Entries(capacity, ops);
    if k in es {
      RunCounts(capacity, ops, k);
      forall k' | k' in es ensures LessUsed(es[k], es[k']) <==> LessUsedByRun(capacity, ops, k, k') {
        RunCounts(capacity, ops, k');
        RunStamps(capacity, ops, k, k');
      }
    }
  }

  /** Which keys a run keeps, in terms of its operations alone: the key just put, and every
      key cached before, except that a put of an uncached key to a full cache evicts the one
      with the fewest operations since it entered and, on ties, the oldest last operation. */
  lemma {:induction false} Retained(capacity: int, ops: seq<Op>, op: Op, key: int)
    requires capacity != 0
    ensures Entries(capacity, []) == map[]
    ensures var es := Entries(capacity, ops);
            key in Entries(capacity, ops + [op]) <==>
              || (op.Put? && op.key == key)
              || (key in es && !(op.Put? && op.key !in es && |es| == capacity && LeastByRun(capacity, ops, key)))
  {
    var m := ModelRun(Model(map[], 0), capacity, ops).0;
    EntriesStep(capacity, ops, op);
    VictimByRun(capacity, ops, key);
    AfterKeys(m, capacity, op, key);
  }

  lemma {:induction false} AfterKeys(m: Model, capacity: int, op: Op, key: int)
    requires Stamped(m) && capacity != 0
    ensures key in After(m, capacity, op).entries <==>
              || (op.Put? && op.key == key)
              || (key in m.entries
                  && !(op.Put? && op.key !in m.entries && |m.entries| == capacity && IsVictim(m.entries, key)))
  {
    if op.Put? && op.key !in m.entries && |m.entries| == capacity && m.entries.Keys != {} {
      if IsVictim(m.entries, key) {
        VictimUnique(m.entries, key, Victim(m));
      }
    }
  }
}
