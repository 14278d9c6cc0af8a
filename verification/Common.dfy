/** Small notions that several modules share. */
module Common {

  function Max(a: int, b: int): int {
    if a >= b then a else b
  }

  function Pow2(n: nat): (r: nat)
    ensures r >= 1
  {
    if n == 0 then 1 else 2 * Pow2(n - 1)
  }

  lemma {:induction false} Pow2Monotone(a: nat, b: nat)
    requires a <= b
    ensures Pow2(a) <= Pow2(b)
  {
    if a < b {
      Pow2Monotone(a, b - 1);
    }
  }

  predicate Distinct<T(==)>(s: seq<T>) {
    forall i, j :: 0 <= i < j < |s| ==> s[i] != s[j]
  }

  /** s without its element at position k. */
  function Without<T>(s: seq<T>, k: nat): seq<T>
    requires k < |s|
  {
    s[..k] + s[k + 1..]
  }

  function Reversed<T>(s: seq<T>): (r: seq<T>)
    ensures |r| == |s| && forall k :: 0 <= k < |s| ==> r[k] == s[|s| - 1 - k]
  {
    seq(|s|, k requires 0 <= k < |s| => s[|s| - 1 - k])
  }

  lemma {:induction false} ReversedCat<T>(a: seq<T>, b: seq<T>)
    ensures Reversed(a + b) == Reversed(b) + Reversed(a)
  {
  }

  /** The total weight of a sequence, and how it moves when one element is replaced. */
  function Total<T>(w: T -> nat, xs: seq<T>): nat {
    if xs == [] then 0 else Total(w, xs[..|xs| - 1]) + w(xs[|xs| - 1])
  }

  lemma {:induction false} TotalSet<T>(w: T -> nat, xs: seq<T>, i: nat, x: T)
    requires i < |xs|
    ensures Total(w, xs[i := x]) == Total(w, xs) - w(xs[i]) + w(x)
    ensures Total(w, xs) >= w(xs[i])
  {
    var n := |xs| - 1;
    if i < n {
      TotalSet(w, xs[..n], i, x);
      assert xs[i := x][..n] == xs[..n][i := x];
    } else {
      assert xs[i := x][..n] == xs[..n];
    }
  }

  lemma {:induction false} TotalNone<T>(w: T -> nat, xs: seq<T>)
    requires forall i :: 0 <= i < |xs| ==> w(xs[i]) == 0
    ensures Total(w, xs) == 0
  {
    if xs != [] {
      TotalNone(w, xs[..|xs| - 1]);
    }
  }

  lemma {:induction false} TotalTwo<T>(w: T -> nat, xs: seq<T>, i: nat, j: nat)
    requires i < j < |xs|
    ensures Total(w, xs) >= w(xs[i]) + w(xs[j])
  {
    if j < |xs| - 1 {
      TotalTwo(w, xs[..|xs| - 1], i, j);
    } else {
      var x := xs[i];
      TotalSet(w, xs[..j], i, x);
    }
  }
}
