/** The dense reference operations on row-major `seq<seq<int>>` matrices:
    the oracles against which the sparse arithmetic is specified.
    Each operation is a method with the nested index loops of the
    original helpers, proved equal to a pure specification function. */
module Dense {

  /** `a` has at least `rows` rows, each with at least `cols` entries:
      exactly what a loop over `rows` x `cols` indices reads. */
  ghost predicate Covers(a: seq<seq<int>>, rows: nat, cols: nat) {
    rows <= |a| && forall i :: 0 <= i < rows ==> cols <= |a[i]|
  }

  /** Some cell of `a` is not zero. */
  ghost predicate HasNonZero(a: seq<seq<int>>) {
    exists i, j :: 0 <= i < |a| && 0 <= j < |a[i]| && a[i][j] != 0
  }

  /** Sum over j < |v| of u[j] * v[j], accumulated left to right. */
  ghost function Dot(u: seq<int>, v: seq<int>): int
    requires |v| <= |u|
    decreases |v|
  {
    if |v| == 0 then 0 else Dot(u, v[..|v| - 1]) + u[|v| - 1] * v[|v| - 1]
  }

  /** The first `k` entries of column `j` of `b`. */
  ghost function Column(b: seq<seq<int>>, j: nat, k: nat): seq<int>
    requires Covers(b, k, j + 1)
  {
    seq(k, i requires 0 <= i < k => b[i][j])
  }

  /** |a| rows by |a[0]| columns, cell (i, j) = a[i][j] + b[i][j]. */
  ghost function MatrixSum(a: seq<seq<int>>, b: seq<seq<int>>): seq<seq<int>>
    requires |a| > 0 && Covers(a, |a|, |a[0]|) && Covers(b, |a|, |a[0]|)
  {
    seq(|a|, i requires 0 <= i < |a| =>
      seq(|a[0]|, j requires 0 <= j < |a[0]| => a[i][j] + b[i][j]))
  }

  /** |a| rows by |a[0]| columns, cell (i, j) = a[i][j] - b[i][j]. */
  ghost function MatrixDifference(a: seq<seq<int>>, b: seq<seq<int>>): seq<seq<int>>
    requires |a| > 0 && Covers(a, |a|, |a[0]|) && Covers(b, |a|, |a[0]|)
  {
    seq(|a|, i requires 0 <= i < |a| =>
      seq(|a[0]|, j requires 0 <= j < |a[0]| => a[i][j] - b[i][j]))
  }

  /** |a| entries, entry i = sum over j < |v| of a[i][j] * v[j]. */
  ghost function MatrixVectorProduct(a: seq<seq<int>>, v: seq<int>): seq<int>
    requires Covers(a, |a|, |v|)
  {
    seq(|a|, i requires 0 <= i < |a| => Dot(a[i], v))
  }

  /** |a| rows by |b[0]| columns, cell (i, j) = sum over k < |a[0]| of a[i][k] * b[k][j]. */
  ghost function MatrixProduct(a: seq<seq<int>>, b: seq<seq<int>>): seq<seq<int>>
    requires |a| > 0 && |b| > 0 && Covers(a, |a|, |a[0]|) && Covers(b, |a[0]|, |b[0]|)
  {
    seq(|a|, i requires 0 <= i < |a| =>
      seq(|b[0]|, j requires 0 <= j < |b[0]| => Dot(a[i], Column(b, j, |a[0]|))))
  }

  method AddMatrices(a: seq<seq<int>>, b: seq<seq<int>>) returns (result: seq<seq<int>>)
    requires |a| > 0 && Covers(a, |a|, |a[0]|) && Covers(b, |a|, |a[0]|)
    ensures result == MatrixSum(a, b)
  {
    var rows, cols := |a|, |a[0]|;
    result := seq(rows, _ => seq(cols, _ => 0));
    for i := 0 to rows
      invariant |result| == rows
      invariant forall k :: 0 <= k < rows ==> |result[k]| == cols
      invariant forall k :: 0 <= k < i ==> result[k] == MatrixSum(a, b)[k]
    {
      for j := 0 to cols
        invariant |result| == rows
        invariant forall k :: 0 <= k < rows ==> |result[k]| == cols
        invariant forall k :: 0 <= k < i ==> result[k] == MatrixSum(a, b)[k]
        invariant forall l :: 0 <= l < j ==> result[i][l] == a[i][l] + b[i][l]
      {
        result := result[i := result[i][j := a[i][j] + b[i][j]]];
      }
    }
  }

  method SubtractMatrices(a: seq<seq<int>>, b: seq<seq<int>>) returns (result: seq<seq<int>>)
    requires |a| > 0 && Covers(a, |a|, |a[0]|) && Covers(b, |a|, |a[0]|)
    ensures result == MatrixDifference(a, b)
  {
    var rows, cols := |a|, |a[0]|;
    result := seq(rows, _ => seq(cols, _ => 0));
    for i := 0 to rows
      invariant |result| == rows
      invariant forall k :: 0 <= k < rows ==> |result[k]| == cols
      invariant forall k :: 0 <= k < i ==> result[k] == MatrixDifference(a, b)[k]
    {
      for j := 0 to cols
        invariant |result| == rows
        invariant forall k :: 0 <= k < rows ==> |result[k]| == cols
        invariant forall k :: 0 <= k < i ==> result[k] == MatrixDifference(a, b)[k]
        invariant forall l :: 0 <= l < j ==> result[i][l] == a[i][l] - b[i][l]
      {
        result := result[i := result[i][j := a[i][j] - b[i][j]]];
      }
    }
  }

  method MultiplyMatrixByVector(a: seq<seq<int>>, v: seq<int>) returns (result: seq<int>)
    requires Covers(a, |a|, |v|)
    ensures result == MatrixVectorProduct(a, v)
  {
    var rows, cols := |a|, |v|;
    result := seq(rows, _ => 0);
    for i := 0 to rows
      invariant |result| == rows
      invariant forall k :: 0 <= k < i ==> result[k] == Dot(a[k], v)
      invariant forall k :: i <= k < rows ==> result[k] == 0
    {
      for j := 0 to cols
        invariant |result| == rows
        invariant forall k :: 0 <= k < i ==> result[k] == Dot(a[k], v)
        invariant forall k :: i < k < rows ==> result[k] == 0
        invariant result[i] == Dot(a[i], v[..j])
      {
        assert v[..j + 1][..j] == v[..j];
        result := result[i := result[i] + a[i][j] * v[j]];
      }
      assert v[..cols] == v;
    }
  }

  method MultiplyMatrices(a: seq<seq<int>>, b: seq<seq<int>>) returns (result: seq<seq<int>>)
    requires |a| > 0 && |b| > 0 && Covers(a, |a|, |a[0]|) && Covers(b, |a[0]|, |b[0]|)
    ensures result == MatrixProduct(a, b)
  {
    var rowsA, colsA, colsB := |a|, |a[0]|, |b[0]|;
    result := seq(rowsA, _ => seq(colsB, _ => 0));
    for i := 0 to rowsA
      invariant |result| == rowsA
      invariant forall k :: 0 <= k < rowsA ==> |result[k]| == colsB
      invariant forall k :: 0 <= k < i ==> result[k] == MatrixProduct(a, b)[k]
    {
      for j := 0 to colsB
        invariant |result| == rowsA
        invariant forall k :: 0 <= k < rowsA ==> |result[k]| == colsB
        invariant forall k :: 0 <= k < i ==> result[k] == MatrixProduct(a, b)[k]
        invariant forall l :: 0 <= l < j ==> result[i][l] == Dot(a[i], Column(b, l, colsA))
      {
        ghost var col := Column(b, j, colsA);
        result := result[i := result[i][j := 0]];
        for k := 0 to colsA
          invariant |result| == rowsA
          invariant forall q :: 0 <= q < rowsA ==> |result[q]| == colsB
          invariant forall q :: 0 <= q < i ==> result[q] == MatrixProduct(a, b)[q]
          invariant forall l :: 0 <= l < j ==> result[i][l] == Dot(a[i], Column(b, l, colsA))
          invariant result[i][j] == Dot(a[i], col[..k])
        {
          assert col[..k + 1][..k] == col[..k];
          result := result[i := result[i][j := result[i][j] + a[i][k] * b[k][j]]];
        }
        assert col[..colsA] == col;
      }
    }
  }

  /** One step of an inner-product loop: adding u[k] * v[k] to the sum
      over the first k entries gives the sum over the first k + 1. */
  method DotStep(acc: int, x: int, y: int, ghost u: seq<int>, ghost v: seq<int>, k: nat) returns (sum: int)
    requires k < |v| <= |u| && acc == Dot(u, v[..k]) && x == u[k] && y == v[k]
    ensures sum == Dot(u, v[..k + 1])
  {
    assert v[..k + 1][..k] == v[..k];
    sum := acc + x * y;
  }

  /** Subtracting what was added gives back the first operand, for a
      rectangular first operand. */
  lemma DifferenceOfSum(a: seq<seq<int>>, b: seq<seq<int>>)
    requires |a| > 0 && (forall i :: 0 <= i < |a| ==> |a[i]| == |a[0]|) && Covers(b, |a|, |a[0]|)
    ensures Covers(MatrixSum(a, b), |a|, |a[0]|)
    ensures MatrixDifference(MatrixSum(a, b), b) == a
  {
    var s := MatrixSum(a, b);
    assert |s[0]| == |a[0]|;
    var d := MatrixDifference(s, b);
    forall i | 0 <= i < |a| ensures d[i] == a[i] {
      assert |d[i]| == |a[i]|;
      forall j | 0 <= j < |a[0]| ensures d[i][j] == a[i][j] {
        assert d[i][j] == s[i][j] - b[i][j];
      }
    }
  }

  /** Dot is linear in its first argument. */
  lemma {:induction false} DotAdd(w: seq<int>, u1: seq<int>, u2: seq<int>, v: seq<int>)
    requires |v| <= |w| && |w| == |u1| == |u2|
    requires forall j :: 0 <= j < |w| ==> w[j] == u1[j] + u2[j]
    ensures Dot(w, v) == Dot(u1, v) + Dot(u2, v)
    decreases |v|
  {
    if |v| > 0 {
      var p := |v| - 1;
      DotAdd(w, u1, u2, v[..p]);
      assert w[p] * v[p] == u1[p] * v[p] + u2[p] * v[p] by {
        assert w[p] == u1[p] + u2[p];
      }
    }
  }

  /** Dot of a vector that is zero except at k picks out a * v[k]. */
  lemma {:induction false} DotUnit(u: seq<int>, v: seq<int>, k: nat, a: int)
    requires |v| <= |u|
    requires forall j :: 0 <= j < |u| ==> u[j] == if j == k then a else 0
    ensures Dot(u, v) == if k < |v| then a * v[k] else 0
    decreases |v|
  {
    if |v| > 0 {
      var p := |v| - 1;
      DotUnit(u, v[..p], k, a);
      if k < p {
        assert v[..p][k] == v[k];
      }
    }
  }
}
