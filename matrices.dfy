// Row access and arg-min / arg-max over the dense row-major matrices
// (the wup library's `Bundle`) and fitness vectors that the optimiser works on.

module Matrices {

  /** Row `i` of matrix `m`, as a sequence (the wup library's `Bundle::exportRow`). */
  function Row(m: array2<real>, i: nat): (r: seq<real>)
    reads m
    requires i < m.Length0
    ensures |r| == m.Length1
    ensures forall j :: 0 <= j < m.Length1 ==> r[j] == m[i, j]
  {
    seq(m.Length1, j reads m requires 0 <= j < m.Length1 => m[i, j])
  }

  /** Every row of `m`, in order: the matrix as a value. */
  ghost function Rows(m: array2<real>): (r: seq<seq<real>>)
    reads m
    ensures |r| == m.Length0
    ensures forall i :: 0 <= i < m.Length0 ==> r[i] == Row(m, i)
  {
    seq(m.Length0, i reads m requires 0 <= i < m.Length0 => Row(m, i))
  }

  /** A matrix equals a sequence of rows of its shape exactly when every entry agrees. */
  lemma RowsFromEntries(m: array2<real>, r: seq<seq<real>>)
    requires |r| == m.Length0 && forall i :: 0 <= i < |r| ==> |r[i]| == m.Length1
    requires forall i, j :: 0 <= i < m.Length0 && 0 <= j < m.Length1 ==> m[i, j] == r[i][j]
    ensures Rows(m) == r
  {
    assert forall i :: 0 <= i < |r| ==> Rows(m)[i] == r[i];
  }

  /** Entry i of `offered` where `take[i]` holds, entry i of `kept` otherwise. */
  function Choose<T>(take: seq<bool>, kept: seq<T>, offered: seq<T>): (r: seq<T>)
    requires |take| == |kept| == |offered|
    ensures |r| == |take|
    ensures forall i :: 0 <= i < |r| ==> r[i] == (if take[i] then offered[i] else kept[i])
  {
    seq(|take|, i requires 0 <= i < |take| => if take[i] then offered[i] else kept[i])
  }

  /** True when every coordinate of row `i` of `a` equals that of row `k` of `b`. */
  ghost predicate SameRow(a: array2<real>, i: nat, b: array2<real>, k: nat)
    reads a, b
    requires i < a.Length0 && k < b.Length0 && a.Length1 == b.Length1
  {
    forall j :: 0 <= j < a.Length1 ==> a[i, j] == b[k, j]
  }

  /** Index of the first smallest entry of `s` (the wup library's `arr::indexOfMin`). */
  function IndexOfMin(s: seq<real>): (r: nat)
    requires |s| > 0
    ensures r < |s|
    ensures forall j :: 0 <= j < |s| ==> s[r] <= s[j]
    ensures forall j :: 0 <= j < r ==> s[r] < s[j]
  {
    if |s| == 1 then 0
    else
      var k := IndexOfMin(s[..|s| - 1]);
      if s[|s| - 1] < s[k] then |s| - 1 else k
  }

  /** Index of the first largest entry of `s` (the wup library's `arr::indexOfMax`). */
  function IndexOfMax(s: seq<real>): (r: nat)
    requires |s| > 0
    ensures r < |s|
    ensures forall j :: 0 <= j < |s| ==> s[j] <= s[r]
    ensures forall j :: 0 <= j < r ==> s[j] < s[r]
  {
    if |s| == 1 then 0
    else
      var k := IndexOfMax(s[..|s| - 1]);
      if s[k] < s[|s| - 1] then |s| - 1 else k
  }

  /** The smallest entry of a non-empty sequence. */
  function MinOf(s: seq<real>): (m: real)
    requires |s| > 0
    ensures m in s
    ensures forall j :: 0 <= j < |s| ==> m <= s[j]
  {
    s[IndexOfMin(s)]
  }

  /** Copies row `i` of `m` into `dst` (the wup library's `Bundle::exportRow`). */
  method ExportRow(m: array2<real>, i: nat, dst: array<real>)
    requires i < m.Length0 && dst.Length == m.Length1
    modifies dst
    ensures dst[..] == Row(m, i)
  {
    for j := 0 to dst.Length
      invariant forall c :: 0 <= c < j ==> dst[c] == m[i, c]
    {
      dst[j] := m[i, j];
    }
    assert forall c :: 0 <= c < dst.Length ==> dst[..][c] == Row(m, i)[c];
  }
}
