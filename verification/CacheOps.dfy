/** Operations on a cache, and what a run of them says about a key. */
module CacheOps {

  datatype Op = Get(key: int) | Put(key: int, val: int)

  /** The position of the last operation on key, or -1. */
  function LastOp(ops: seq<Op>, key: int): (i: int)
    ensures -1 <= i < |ops|
  {
    if ops == [] then -1
    else if ops[|ops| - 1].key == key then |ops| - 1
    else LastOp(ops[..|ops| - 1], key)
  }

  /** The last put of key gave it the value val. */
  predicate LastPut(ops: seq<Op>, key: int, val: int) {
    if ops == [] then false
    else if ops[|ops| - 1].Put? && ops[|ops| - 1].key == key then ops[|ops| - 1].val == val
    else LastPut(ops[..|ops| - 1], key, val)
  }

  /** How many operations from position start on are on key. */
  function CountOps(ops: seq<Op>, start: nat, key: int): nat {
    if |ops| <= start then 0
    else CountOps(ops[..|ops| - 1], start, key) + if ops[|ops| - 1].key == key then 1 else 0
  }

  lemma {:induction false} OneMoreOp(ops: seq<Op>, op: Op, key: int, val: int)
    requires op.key != key
    ensures LastOp(ops + [op], key) == LastOp(ops, key)
    ensures LastPut(ops + [op], key, val) == LastPut(ops, key, val)
  {
    assert (ops + [op])[..|ops|] == ops;
  }

  lemma {:induction false} OneMoreOnKey(ops: seq<Op>, op: Op, val: int)
    ensures LastOp(ops + [op], op.key) == |ops|
    ensures LastPut(ops + [op], op.key, val) <==> if op.Put? then op.val == val else LastPut(ops, op.key, val)
  {
    assert (ops + [op])[..|ops|] == ops;
  }

  lemma {:induction false} CountOneMore(ops: seq<Op>, op: Op, start: nat, key: int)
    requires start <= |ops|
    ensures CountOps(ops + [op], start, key) == CountOps(ops, start, key) + if op.key == key then 1 else 0
  {
    assert (ops + [op])[..|ops|] == ops;
  }

  /** How many gets a run holds: its gets are answered in order, one answer each. */
  function CountGets(ops: seq<Op>): nat {
    if ops == [] then 0 else CountGets(ops[..|ops| - 1]) + if ops[|ops| - 1].Get? then 1 else 0
  }

  /** What a get of key must answer after ops: the value last put, or -1 for an uncached key. */
  predicate AnswerOk(ops: seq<Op>, key: int, cached: bool, a: int) {
    if cached then LastPut(ops, key, a) else a == -1
  }

  /** The get at position p received its answer. */
  ghost predicate AnsweredAt(ops: seq<Op>, answers: seq<int>, cached: (seq<Op>, int) -> bool, p: nat)
    requires p < |ops| && ops[p].Get?
  {
    var i := CountGets(ops[..p]);
    i < |answers| && AnswerOk(ops[..p], ops[p].key, cached(ops[..p], ops[p].key), answers[i])
  }

  /** Every get of a run received its answer, where cached tells which keys are cached when. */
  ghost predicate AllAnswered(ops: seq<Op>, answers: seq<int>, cached: (seq<Op>, int) -> bool) {
    && |answers| == CountGets(ops)
    && forall p :: 0 <= p < |ops| && ops[p].Get? ==> AnsweredAt(ops, answers, cached, p)
  }

  /** One more operation, and its answer if it is a get. */
  lemma {:induction false} OneMoreAnswer(ops: seq<Op>, op: Op, answers: seq<int>, more: seq<int>,
                                         cached: (seq<Op>, int) -> bool)
    requires AllAnswered(ops, answers, cached)
    requires if op.Get? then |more| == 1 && AnswerOk(ops, op.key, cached(ops, op.key), more[0]) else more == []
    ensures AllAnswered(ops + [op], answers + more, cached)
  {
    var ops' := ops + [op];
    assert ops'[..|ops|] == ops;
    forall p | 0 <= p < |ops'| && ops'[p].Get? ensures AnsweredAt(ops', answers + more, cached, p) {
      if p < |ops| {
        assert ops'[..p] == ops[..p];
        assert AnsweredAt(ops, answers, cached, p);
      }
    }
  }
}
