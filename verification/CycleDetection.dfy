/** Fast and slow pointers on a singly linked list: whether it runs in a cycle, and
    where the cycle starts. */
module CycleDetection {

  class ListNode {
    var val: int
    var next: ListNode?
  }

  /** nodes contains everything that can be reached from head. */
  ghost predicate Closed(head: ListNode?, nodes: set<ListNode>)
    reads nodes
  {
    && (head != null ==> head in nodes)
    && forall n :: n in nodes && n.next != null ==> n.next in nodes
  }

  /** The node k steps from head, or null once the list has ended. */
  ghost function At(head: ListNode?, k: nat, nodes: set<ListNode>): (r: ListNode?)
    requires Closed(head, nodes)
    reads nodes
    ensures r != null ==> r in nodes
  {
    if k == 0 then head
    else
      var p := At(head, k - 1, nodes);
      if p == null then null else p.next
  }

  ghost predicate Acyclic(head: ListNode?, nodes: set<ListNode>)
    requires Closed(head, nodes)
    reads nodes
  {
    exists k: nat :: At(head, k, nodes) == null
  }

  /** entry is the first node of the cycle: it is reached after mu steps and again after
      lam more, and no node is met twice before that. */
  ghost predicate CycleEntry(head: ListNode?, nodes: set<ListNode>, entry: ListNode?, mu: nat, lam: nat)
    requires Closed(head, nodes)
    reads nodes
  {
    && lam >= 1 && entry != null && At(head, mu, nodes) == entry == At(head, mu + lam, nodes)
    && forall a: nat, b: nat :: a < b < mu + lam ==> At(head, a, nodes) != At(head, b, nodes)
  }

  // ---------------------------------------------------------------- the shape of a finite list

  /** ns are the nodes in the order they are first met; the last one points back to
      position mu, or nowhere if mu is -1. */
  ghost predicate Lasso(head: ListNode?, ns: seq<ListNode>, mu: int)
    reads ns
  {
    && Chain(head, ns) && -1 <= mu < |ns|
    && (ns != [] ==> ns[|ns| - 1].next == if mu == -1 then null else ns[mu])
  }

  ghost predicate Chain(head: ListNode?, ns: seq<ListNode>)
    reads ns
  {
    && (forall i, j :: 0 <= i < j < |ns| ==> ns[i] != ns[j])
    && head == (if ns == [] then null else ns[0])
    && forall i :: 0 <= i < |ns| - 1 ==> Linked(ns, i)
  }

  ghost predicate Linked(ns: seq<ListNode>, i: int)
    requires 0 <= i < |ns| - 1
    reads ns
  {
    ns[i].next == ns[i + 1]
  }

  /** Following a chain inside a finite set ends or comes back. */
  lemma {:induction false} Grow(head: ListNode?, nodes: set<ListNode>, rest: set<ListNode>, ns: seq<ListNode>)
    returns (ms: seq<ListNode>, mu: int)
    requires Closed(head, nodes) && Chain(head, ns) && ns != []
    requires forall n :: n in nodes <==> n in rest || n in ns
    ensures ms != [] && Lasso(head, ms, mu)
    decreases |rest|
  {
    var last := ns[|ns| - 1];
    if last.next == null {
      ms, mu := ns, -1;
    } else if last.next in ns {
      ms := ns;
      mu :| 0 <= mu < |ns| && ns[mu] == last.next;
    } else {
      var more := ns + [last.next];
      forall i | 0 <= i < |more| - 1 ensures Linked(more, i) {
        assert i < |ns| - 1 ==> Linked(ns, i);
      }
      ms, mu := Grow(head, nodes, rest - {last.next}, more);
    }
  }

  lemma {:induction false} Shape(head: ListNode?, nodes: set<ListNode>)
    returns (ns: seq<ListNode>, mu: int)
    requires Closed(head, nodes)
    ensures Lasso(head, ns, mu)
  {
    if head == null {
      ns, mu := [], -1;
    } else {
      ns, mu := Grow(head, nodes, nodes - {head}, [head]);
    }
  }

  // ---------------------------------------------------------------- positions on a lasso

  /** Which of the first len positions is reached after k steps when position len is
      position mu again. */
  ghost function Pos(k: nat, mu: nat, len: nat): (r: nat)
    requires mu < len
    ensures r < len && (k < len ==> r == k) && (k >= mu ==> r >= mu)
  {
    if k < len then k else Pos(k - (len - mu), mu, len)
  }

  ghost predicate Multiple(d: nat, lam: nat)
    requires lam >= 1
  {
    d == 0 || (d >= lam && Multiple(d - lam, lam))
  }

  lemma {:induction false} PosTurn(a: nat, d: nat, mu: nat, len: nat)
    requires mu < len && a >= mu && Multiple(d, len - mu)
    ensures Pos(a + d, mu, len) == Pos(a, mu, len)
  {
    if d > 0 {
      PosTurn(a, d - (len - mu), mu, len);
    }
  }

  lemma {:induction false} PosSame(a: nat, b: nat, mu: nat, len: nat)
    requires mu < len && a < b && Pos(a, mu, len) == Pos(b, mu, len)
    ensures a >= mu && Multiple(b - a, len - mu)
    decreases a + b
  {
    var c := b - (len - mu);
    if a < c {
      PosSame(a, c, mu, len);
    } else if c < a {
      PosSame(c, a, mu, len);
    }
  }

  /** Whole turns, enough of them to be past the tail. */
  ghost function Turns(n: nat, lam: nat): (r: nat)
    requires lam >= 1
    ensures r >= n && Multiple(r, lam)
  {
    if n == 0 then 0 else Turns(n - 1, lam) + lam
  }

  lemma {:induction false} AtPos(head: ListNode?, nodes: set<ListNode>, ns: seq<ListNode>, mu: nat, k: nat)
    requires Closed(head, nodes) && Lasso(head, ns, mu)
    ensures At(head, k, nodes) == ns[Pos(k, mu, |ns|)]
  {
    if k > 0 {
      AtPos(head, nodes, ns, mu, k - 1);
      PosNext(k - 1, mu, |ns|);
      var p := Pos(k - 1, mu, |ns|);
      assert p < |ns| - 1 ==> Linked(ns, p);
    }
  }

  lemma {:induction false} PosNext(k: nat, mu: nat, len: nat)
    requires mu < len
    ensures Pos(k + 1, mu, len) == if Pos(k, mu, len) == len - 1 then mu else Pos(k, mu, len) + 1
  {
    if k >= len {
      PosNext(k - (len - mu), mu, len);
    }
  }

  /** A list that ends: the node after k steps is ns[k], then null. */
  lemma {:induction false} AtEnds(head: ListNode?, nodes: set<ListNode>, ns: seq<ListNode>, k: nat)
    requires Closed(head, nodes) && Lasso(head, ns, -1)
    ensures At(head, k, nodes) == if k < |ns| then ns[k] else null
  {
    if k > 0 {
      AtEnds(head, nodes, ns, k - 1);
      assert k < |ns| ==> Linked(ns, k - 1);
    }
  }

  /** Two visits to the same node, in terms of the lasso. */
  lemma {:induction false} SameNode(head: ListNode?, nodes: set<ListNode>, ns: seq<ListNode>, mu: nat, a: nat, b: nat)
    requires Closed(head, nodes) && Lasso(head, ns, mu) && a < b
    ensures At(head, a, nodes) == At(head, b, nodes) <==> a >= mu && Multiple(b - a, |ns| - mu)
    ensures At(head, a, nodes) != null && At(head, b, nodes) != null
  {
    AtPos(head, nodes, ns, mu, a);
    AtPos(head, nodes, ns, mu, b);
    if At(head, a, nodes) == At(head, b, nodes) {
      PosSame(a, b, mu, |ns|);
    }
    if a >= mu && Multiple(b - a, |ns| - mu) {
      PosTurn(a, b - a, mu, |ns|);
    }
  }

  lemma {:induction false} LassoAcyclic(head: ListNode?, nodes: set<ListNode>, ns: seq<ListNode>, mu: int)
    requires Closed(head, nodes) && Lasso(head, ns, mu)
    ensures Acyclic(head, nodes) <==> mu == -1
  {
    if mu == -1 {
      AtEnds(head, nodes, ns, |ns|);
    } else {
      forall k: nat ensures At(head, k, nodes) != null {
        AtPos(head, nodes, ns, mu, k);
      }
    }
  }

  lemma {:induction false} LassoEntry(head: ListNode?, nodes: set<ListNode>, ns: seq<ListNode>, mu: nat)
    requires Closed(head, nodes) && Lasso(head, ns, mu)
    ensures CycleEntry(head, nodes, ns[mu], mu, |ns| - mu)
  {
    AtPos(head, nodes, ns, mu, mu);
    AtPos(head, nodes, ns, mu, |ns|);
    forall a: nat, b: nat | a < b < |ns| ensures At(head, a, nodes) != At(head, b, nodes) {
      AtPos(head, nodes, ns, mu, a);
      AtPos(head, nodes, ns, mu, b);
    }
  }

  /** The entry is unique. */
  lemma {:induction false} EntryUnique(head: ListNode?, nodes: set<ListNode>, e: ListNode?, mu: nat, lam: nat,
                                       e': ListNode?, mu': nat, lam': nat)
    requires Closed(head, nodes) && CycleEntry(head, nodes, e, mu, lam) && CycleEntry(head, nodes, e', mu', lam')
    ensures e == e' && mu == mu' && lam == lam'
  {
    assert mu + lam == mu' + lam';
  }

  // ---------------------------------------------------------------- the two listings

  /** How many rounds are left: the pointers meet at the latest after a whole number of
      turns, and a list that ends is left behind. */
  ghost function Bound(ns: seq<ListNode>, mu: int): (r: nat)
    requires -1 <= mu < |ns|
  {
    if mu == -1 then |ns| + 1 else Turns(mu + 1, |ns| - mu)
  }

  /** After k rounds: what a meeting tells, and that the bound forces one. */
  lemma {:induction false} Meeting(head: ListNode?, nodes: set<ListNode>, ns: seq<ListNode>, mu: int, k: nat)
    requires Closed(head, nodes) && Lasso(head, ns, mu) && k >= 1
    requires At(head, 2 * k - 1, nodes) != null
    ensures At(head, k, nodes) != null
    ensures At(head, k, nodes) == At(head, 2 * k, nodes) ==> mu != -1 && Multiple(k, |ns| - mu)
    ensures k == Bound(ns, mu) ==> At(head, k, nodes) == At(head, 2 * k, nodes)
  {
    if mu == -1 {
      AtEnds(head, nodes, ns, k);
      AtEnds(head, nodes, ns, 2 * k - 1);
      AtEnds(head, nodes, ns, 2 * k);
    } else {
      SameNode(head, nodes, ns, mu, k, 2 * k);
    }
  }

  /** The loop shared by both listings: it stops at the end of the list, or with the two
      pointers on the same node after k rounds. */
  method Chase(head: ListNode?, ghost nodes: set<ListNode>, ghost ns: seq<ListNode>, ghost mu: int)
    returns (met: bool, fast: ListNode?, ghost k: nat)
    requires Closed(head, nodes) && Lasso(head, ns, mu)
    ensures met <==> mu != -1
    ensures met ==> k >= 1 && Multiple(k, |ns| - mu) && fast == At(head, k, nodes) == At(head, 2 * k, nodes) != null
    ensures !met ==> fast == At(head, 2 * k, nodes) && (fast == null || fast.next == null)
  {
    var slow := head;
    fast, k, met := head, 0, false;
    while fast != null && fast.next != null
      invariant slow == At(head, k, nodes) && fast == At(head, 2 * k, nodes)
      invariant k < Bound(ns, mu) || (k == 0 && fast == null)
      decreases Bound(ns, mu) - k
    {
      assert fast.next == At(head, 2 * k + 1, nodes);
      Meeting(head, nodes, ns, mu, k + 1);
      slow := slow.next;
      fast := fast.next.next;
      k := k + 1;
      if slow == fast {
        met := true;
        return;
      }
    }
    Ended(head, nodes, ns, mu, 2 * k);
  }

  lemma {:induction false} Ended(head: ListNode?, nodes: set<ListNode>, ns: seq<ListNode>, mu: int, k: nat)
    requires Closed(head, nodes) && Lasso(head, ns, mu)
    requires At(head, k, nodes) == null || At(head, k + 1, nodes) == null
    ensures mu == -1
  {
    LassoAcyclic(head, nodes, ns, mu);
  }

  /** hasCycle. */
  method HasCycle(head: ListNode?, ghost nodes: set<ListNode>) returns (r: bool)
    requires Closed(head, nodes)
    ensures r <==> !Acyclic(head, nodes)
  {
    ghost var ns, mu := Shape(head, nodes);
    LassoAcyclic(head, nodes, ns, mu);
    var fast;
    ghost var k;
    r, fast, k := Chase(head, nodes, ns, mu);
  }

  /** detectCycle: null for a list that ends, and otherwise the first node of the cycle. */
  method DetectCycle(head: ListNode?, ghost nodes: set<ListNode>)
    returns (r: ListNode?, ghost start: nat, ghost lam: nat)
    requires Closed(head, nodes)
    ensures r == null <==> Acyclic(head, nodes)
    ensures r != null ==> CycleEntry(head, nodes, r, start, lam)
  {
    ghost var ns, mu := Shape(head, nodes);
    LassoAcyclic(head, nodes, ns, mu);
    var met, fast;
    ghost var k;
    met, fast, k := Chase(head, nodes, ns, mu);
    start, lam := 0, 0;
    if fast == null || fast.next == null {
      Ended(head, nodes, ns, mu, if met then k else 2 * k);
      return null, start, lam;
    }
    start, lam := mu, |ns| - mu;
    LassoEntry(head, nodes, ns, mu);
    r := Converge(head, fast, nodes, ns, mu, k);
  }

  /** The second loop: from the head and from the meeting point in step, until they meet. */
  method Converge(head: ListNode?, fast0: ListNode?, ghost nodes: set<ListNode>, ghost ns: seq<ListNode>, ghost mu: nat,
                  ghost k: nat)
    returns (slow: ListNode?)
    requires Closed(head, nodes) && Lasso(head, ns, mu)
    requires k >= 1 && Multiple(k, |ns| - mu) && fast0 == At(head, k, nodes)
    ensures slow == ns[mu]
  {
    var fast := fast0;
    slow := head;
    ghost var j := 0;
    SameNode(head, nodes, ns, mu, 0, k);
    while slow != fast
      invariant 0 <= j <= mu && slow == At(head, j, nodes) != null && fast == At(head, k + j, nodes) != null
      invariant slow == fast <==> j == mu
      decreases mu - j
    {
      fast := fast.next;
      slow := slow.next;
      j := j + 1;
      SameNode(head, nodes, ns, mu, j, k + j);
    }
    AtPos(head, nodes, ns, mu, mu);
  }
}
