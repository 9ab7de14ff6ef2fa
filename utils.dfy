// In-place array reductions used by the objective functions: squaring every
// element, and the pairwise tree sum that folds the upper half of a prefix
// onto its lower half until one element is left.

module Utils {

  /** Exact sum of a sequence of reals. */
  function Sum(s: seq<real>): real
  {
    if |s| == 0 then 0.0 else Sum(s[..|s| - 1]) + s[|s| - 1]
  }

  /** Element-wise squares. */
  function Squares(s: seq<real>): (r: seq<real>)
    ensures |r| == |s|
    ensures forall i :: 0 <= i < |s| ==> r[i] == s[i] * s[i]
  {
    seq(|s|, i requires 0 <= i < |s| => s[i] * s[i])
  }

  lemma {:induction false} SumAppend(a: seq<real>, b: seq<real>)
    ensures Sum(a + b) == Sum(a) + Sum(b)
  {
    if |b| == 0 {
      assert a + b == a;
    } else {
      assert (a + b)[..|a + b| - 1] == a + b[..|b| - 1];
      SumAppend(a, b[..|b| - 1]);
    }
  }

  /** Adding two equally long sequences element-wise adds their sums. */
  lemma {:induction false} SumPairwise(a: seq<real>, b: seq<real>, c: seq<real>)
    requires |a| == |b| == |c|
    requires forall k :: 0 <= k < |c| ==> c[k] == a[k] + b[k]
    ensures Sum(c) == Sum(a) + Sum(b)
  {
    if |c| > 0 {
      var m := |c| - 1;
      SumPairwise(a[..m], b[..m], c[..m]);
    }
  }

  /** Adding `x` to the first element adds `x` to the sum. */
  lemma {:induction false} SumBumpFirst(s: seq<real>, x: real)
    requires |s| > 0
    ensures Sum(s[0 := s[0] + x]) == Sum(s) + x
  {
    if |s| > 1 {
      var m := |s| - 1;
      assert s[0 := s[0] + x][..m] == s[..m][0 := s[0] + x];
      SumBumpFirst(s[..m], x);
    }
  }

  /** Replaces each of the first `n` elements by its square. */
  method SquaredCollapse(data: array<real>, n: nat)
    requires n <= data.Length
    modifies data
    ensures data[..n] == Squares(old(data[..n]))
    ensures data[n..] == old(data[n..])
  {
    for i := 0 to n
      invariant forall t :: 0 <= t < i ==> data[t] == old(data[t]) * old(data[t])
      invariant forall t :: i <= t < data.Length ==> data[t] == old(data[t])
    {
      data[i] := data[i] * data[i];
    }
    assert forall t :: 0 <= t < n ==> data[..n][t] == Squares(old(data[..n]))[t];
  }

  /** One pairwise fold: `data[k] += data[k + h]` for every `k < h`. */
  method FoldHalves(data: array<real>, h: nat)
    requires 2 * h <= data.Length
    modifies data
    ensures Sum(data[..h]) == Sum(old(data[..2 * h]))
    ensures data[2 * h..] == old(data[2 * h..])
  {
    for k := 0 to h
      invariant forall t :: 0 <= t < k ==> data[t] == old(data[t]) + old(data[t + h])
      invariant forall t :: k <= t < data.Length ==> data[t] == old(data[t])
    {
      data[k] := data[k] + data[k + h];
    }
    ghost var s := old(data[..2 * h]);
    SumPairwise(s[..h], s[h..], data[..h]);
    assert s == s[..h] + s[h..];
    SumAppend(s[..h], s[h..]);
  }

  /**
   * Sums the first `n` elements by repeated pairwise folding, in place,
   * and returns the total left in `data[0]`. With `n == 0` the loop does
   * not run and `data[0]` is returned as it is.
   */
  method SumCollapse(data: array<real>, n: nat) returns (total: real)
    requires 0 < data.Length && n <= data.Length
    modifies data
    ensures n >= 1 ==> total == Sum(old(data[..n]))
    ensures n == 0 ==> total == old(data[0])
    ensures data[n..] == old(data[n..])
  {
    ghost var n0 := n;
    var m := n;
    var h := 0;
    while m > 1
      invariant 1 <= m <= n0 || m == n0 == 0
      invariant n0 >= 1 ==> Sum(data[..m]) == Sum(old(data[..n0]))
      invariant n0 == 0 ==> data[..] == old(data[..])
      invariant data[n0..] == old(data[n0..])
      decreases m
    {
      if m % 2 == 1 {
        ghost var before := data[..m];
        data[0] := data[0] + data[m - 1];
        m := m - 1;
        assert data[..m] == before[..m][0 := before[0] + before[m]];
        SumBumpFirst(before[..m], before[m]);
        assert before == before[..m] + [before[m]];
      }
      h := m / 2;
      assert 2 * h == m;
      FoldHalves(data, h);
      assert data[n0..] == data[2 * h..][n0 - 2 * h..];
      m := h;
    }
    total := data[0];
    if n0 >= 1 {
      assert data[..m] == [data[0]];
    }
  }

  /** The vector form of SquaredCollapse: squares the whole array. */
  method SquaredCollapseVector(data: array<real>)
    modifies data
    ensures data[..] == Squares(old(data[..]))
  {
    assert old(data[..]) == old(data[..data.Length]);
    SquaredCollapse(data, data.Length);
    assert data[..] == data[..data.Length];
  }

  /** The vector form of SumCollapse: sums the whole (non-empty) array. */
  method SumCollapseVector(data: array<real>) returns (total: real)
    requires 0 < data.Length
    modifies data
    ensures total == Sum(old(data[..]))
  {
    assert data[..] == data[..data.Length];
    total := SumCollapse(data, data.Length);
  }
}
