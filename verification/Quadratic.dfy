/** The equation y^2 + y = target over a word field, solved by Gaussian
    elimination on its bits. */
module Quadratic {
  import opened FieldTheory

  /** One linear equation on the bits of y: the selected bits add up to rhs. */
  datatype Row<F> = Row(coefficients: F, rhs: bool)

  /** y^2 + y, which is additive in y. */
  function Image<F>(K: Field<F>, y: F): F {
    K.add(Sq(K, y), y)
  }

  /** The parity of the common bits below n. */
  ghost function DotTo<F>(K: Field<F>, c: F, y: F, n: nat): bool {
    if n == 0 then false else DotTo(K, c, y, n - 1) != (K.bit(c, n - 1) && K.bit(y, n - 1))
  }

  ghost predicate Sat<F>(K: Field<F>, row: Row<F>, y: F) {
    DotTo(K, row.coefficients, y, K.bits) == row.rhs
  }

  ghost predicate AllSat<F>(K: Field<F>, rows: seq<Row<F>>, y: F) {
    forall i :: 0 <= i < |rows| ==> Sat(K, rows[i], y)
  }

  ghost predicate SameSolutions<F(!new)>(K: Field<F>, rows: seq<Row<F>>, rows': seq<Row<F>>) {
    forall y :: AllSat(K, rows, y) <==> AllSat(K, rows', y)
  }

  // ---- words bit by bit

  lemma BitAdd<F(!new)>(K: Field<F>, a: F, b: F, i: nat)
    requires IsWordField(K)
    ensures K.bit(K.add(a, b), i) == (K.bit(a, i) != K.bit(b, i))
  {
    assert BitsAt(K, a, b, i);
  }

  lemma BitZero<F(!new)>(K: Field<F>, i: nat)
    requires IsWordField(K)
    ensures !K.bit(K.zero, i)
  {
    AddZero(K, K.zero);
    BitAdd(K, K.zero, K.zero, i);
  }

  lemma BitUnit<F(!new)>(K: Field<F>, k: nat, i: nat)
    requires IsWordField(K) && k < K.bits && i < K.bits
    ensures K.bit(K.unit(k), i) == (i == k)
  {
    assert BitsAt(K, K.zero, K.zero, k);
  }

  lemma WordEq<F(!new)>(K: Field<F>, a: F, b: F)
    requires IsWordField(K) && forall i: nat :: i < K.bits ==> K.bit(a, i) == K.bit(b, i)
    ensures a == b
  {
    assert SameBits(K, a, b);
  }

  /** v | 1 << k. */
  function SetBit<F>(K: Field<F>, v: F, k: nat): F {
    if K.bit(v, k) then v else K.add(v, K.unit(k))
  }

  lemma BitSetBit<F(!new)>(K: Field<F>, v: F, k: nat, i: nat)
    requires IsWordField(K) && k < K.bits && i < K.bits
    ensures K.bit(SetBit(K, v, k), i) == (K.bit(v, i) || i == k)
  {
    BitAdd(K, v, K.unit(k), i);
    BitUnit(K, k, i);
  }

  /** The position of the lowest bit set, or the width when there is none. */
  function TrailingZeros<F>(K: Field<F>, v: F, from: nat): (n: nat)
    requires from <= K.bits
    ensures from <= n <= K.bits
    ensures n < K.bits ==> K.bit(v, n)
    ensures forall j: nat :: from <= j < n ==> !K.bit(v, j)
    decreases K.bits - from
  {
    if from == K.bits || K.bit(v, from) then from else TrailingZeros(K, v, from + 1)
  }

  /** The word made of the bits of y below n. */
  ghost function Span<F>(K: Field<F>, y: F, n: nat): F {
    if n == 0 then K.zero
    else if K.bit(y, n - 1) then K.add(Span(K, y, n - 1), K.unit(n - 1))
    else Span(K, y, n - 1)
  }

  lemma {:induction false} SpanBit<F(!new)>(K: Field<F>, y: F, n: nat, i: nat)
    requires IsWordField(K) && n <= K.bits && i < K.bits
    ensures K.bit(Span(K, y, n), i) == (i < n && K.bit(y, i))
  {
    if n == 0 {
      BitZero(K, i);
    } else {
      SpanBit(K, y, n - 1, i);
      BitAdd(K, Span(K, y, n - 1), K.unit(n - 1), i);
      BitUnit(K, n - 1, i);
    }
  }

  lemma SpanAll<F(!new)>(K: Field<F>, y: F)
    requires IsWordField(K)
    ensures Span(K, y, K.bits) == y
  {
    forall i: nat | i < K.bits
      ensures K.bit(Span(K, y, K.bits), i) == K.bit(y, i)
    {
      SpanBit(K, y, K.bits, i);
    }
    WordEq(K, Span(K, y, K.bits), y);
  }

  // ---- the initial system

  /** Row r says that bit r of the image of y is bit r of the target. */
  ghost predicate InitialRow<F>(K: Field<F>, target: F, row: Row<F>, r: nat) {
    && row.rhs == K.bit(target, r)
    && forall j: nat :: j < K.bits ==> K.bit(row.coefficients, j) == K.bit(Image(K, K.unit(j)), r)
  }

  ghost predicate InitialSystem<F>(K: Field<F>, target: F, rows: seq<Row<F>>) {
    |rows| == K.bits && forall r :: 0 <= r < K.bits ==> InitialRow(K, target, rows[r], r)
  }

  lemma ImageAdditive<F(!new)>(K: Field<F>, a: F, b: F)
    requires IsField(K)
    ensures Image(K, K.add(a, b)) == K.add(Image(K, a), Image(K, b))
  {
    Frobenius(K, a, b);
    AddSwap(K, Sq(K, a), Sq(K, b), a, b);
  }

  lemma {:induction false} InitialDot<F(!new)>(K: Field<F>, target: F, row: Row<F>, r: nat, y: F, n: nat)
    requires IsWordField(K) && InitialRow(K, target, row, r) && n <= K.bits
    ensures DotTo(K, row.coefficients, y, n) == K.bit(Image(K, Span(K, y, n)), r)
  {
    if n == 0 {
      MulZero(K, K.zero);
      AddZero(K, K.zero);
      BitZero(K, r);
    } else {
      InitialDot(K, target, row, r, y, n - 1);
      ImageAdditive(K, Span(K, y, n - 1), K.unit(n - 1));
      BitAdd(K, Image(K, Span(K, y, n - 1)), Image(K, K.unit(n - 1)), r);
      assert K.bit(row.coefficients, n - 1) == K.bit(Image(K, K.unit(n - 1)), r);
    }
  }

  lemma InitialSolutions<F(!new)>(K: Field<F>, target: F, rows: seq<Row<F>>, y: F)
    requires IsWordField(K) && InitialSystem(K, target, rows)
    ensures AllSat(K, rows, y) <==> Image(K, y) == target
  {
    SpanAll(K, y);
    forall r | 0 <= r < K.bits
      ensures Sat(K, rows[r], y) <==> K.bit(Image(K, y), r) == K.bit(target, r)
    {
      InitialDot(K, target, rows[r], r, y, K.bits);
    }
    if AllSat(K, rows, y) {
      forall i: nat | i < K.bits
        ensures K.bit(Image(K, y), i) == K.bit(target, i)
      {
        assert Sat(K, rows[i], y);
      }
      WordEq(K, Image(K, y), target);
    }
  }

  // ---- row operations

  lemma {:induction false} DotAdd<F(!new)>(K: Field<F>, a: F, b: F, y: F, n: nat)
    requires IsWordField(K)
    ensures DotTo(K, K.add(a, b), y, n) == (DotTo(K, a, y, n) != DotTo(K, b, y, n))
  {
    if n > 0 {
      DotAdd(K, a, b, y, n - 1);
      BitAdd(K, a, b, n - 1);
    }
  }

  function AddRow<F>(K: Field<F>, row: Row<F>, pivot: Row<F>): Row<F> {
    Row(K.add(row.coefficients, pivot.coefficients), row.rhs != pivot.rhs)
  }

  lemma SatAddRow<F(!new)>(K: Field<F>, row: Row<F>, pivot: Row<F>, y: F)
    requires IsWordField(K) && Sat(K, pivot, y)
    ensures Sat(K, AddRow(K, row, pivot), y) <==> Sat(K, row, y)
  {
    DotAdd(K, row.coefficients, pivot.coefficients, y, K.bits);
  }

  lemma SwapRows<F(!new)>(K: Field<F>, rows: seq<Row<F>>, i: nat, j: nat)
    requires i < |rows| && j < |rows|
    ensures SameSolutions(K, rows, rows[i := rows[j]][j := rows[i]])
  {
    var rows' := rows[i := rows[j]][j := rows[i]];
    forall y
      ensures AllSat(K, rows, y) <==> AllSat(K, rows', y)
    {
      assert rows'[i] == rows[j] && rows'[j] == rows[i];
      if AllSat(K, rows', y) {
        forall k | 0 <= k < |rows|
          ensures Sat(K, rows[k], y)
        {
          assert Sat(K, rows'[if k == i then j else if k == j then i else k], y);
        }
      }
    }
  }

  lemma EliminateRow<F(!new)>(K: Field<F>, rows: seq<Row<F>>, i: nat, p: nat)
    requires IsWordField(K) && i < |rows| && p < |rows| && i != p
    ensures SameSolutions(K, rows, rows[i := AddRow(K, rows[i], rows[p])])
  {
    var rows' := rows[i := AddRow(K, rows[i], rows[p])];
    forall y
      ensures AllSat(K, rows, y) <==> AllSat(K, rows', y)
    {
      assert rows'[p] == rows[p];
      if Sat(K, rows[p], y) {
        SatAddRow(K, rows[i], rows[p], y);
        forall k | 0 <= k < |rows|
          ensures Sat(K, rows[k], y) <==> Sat(K, rows'[k], y)
        {
        }
      }
    }
  }

  // ---- the reduced form

  /** No bit of row below column c. */
  ghost predicate ClearBelow<F>(K: Field<F>, row: Row<F>, c: nat) {
    forall j: nat :: j < c ==> !K.bit(row.coefficients, j)
  }

  ghost predicate PivotRow<F>(K: Field<F>, row: Row<F>, p: nat) {
    p < K.bits && K.bit(row.coefficients, p) && ClearBelow(K, row, p)
  }

  /** Pivot column p is clear in row k, unless k is the pivot's own row. */
  ghost predicate PivotColumn<F>(K: Field<F>, rows: seq<Row<F>>, i: nat, p: nat) {
    forall k :: 0 <= k < |rows| && k != i ==> !K.bit(rows[k].coefficients, p)
  }

  /** The system after the columns below c: the first rows are the pivot rows,
      each with its pivot as lowest bit and alone in its pivot column, and the
      other rows are clear below c. */
  ghost predicate Reduced<F>(K: Field<F>, rows: seq<Row<F>>, pivots: seq<nat>, c: nat) {
    && |rows| == K.bits && |pivots| <= |rows|
    && (forall i :: 0 <= i < |pivots| ==>
      pivots[i] < c && PivotRow(K, rows[i], pivots[i]) && PivotColumn(K, rows, i, pivots[i]))
    && (forall k :: |pivots| <= k < |rows| ==> ClearBelow(K, rows[k], c))
  }

  /** The elimination of one column, up to row n, with row r as the pivot row. */
  ghost predicate Eliminated<F>(K: Field<F>, rows: seq<Row<F>>, rows': seq<Row<F>>, r: nat, c: nat, n: nat) {
    && |rows'| == |rows| && r < |rows|
    && forall k :: 0 <= k < |rows| ==>
         rows'[k] == if k < n && k != r && K.bit(rows[k].coefficients, c) then AddRow(K, rows[k], rows[r]) else rows[k]
  }

  lemma SwapReduced<F(!new)>(K: Field<F>, rows: seq<Row<F>>, pivots: seq<nat>, c: nat, p: nat)
    requires Reduced(K, rows, pivots, c) && |pivots| <= p < |rows|
    ensures Reduced(K, rows[|pivots| := rows[p]][p := rows[|pivots|]], pivots, c)
  {
    var rows' := rows[|pivots| := rows[p]][p := rows[|pivots|]];
    forall i | 0 <= i < |pivots|
      ensures PivotColumn(K, rows', i, pivots[i])
    {
    }
  }

  /** A pivot row does not disturb the columns to its left. */
  lemma AddRowLeft<F(!new)>(K: Field<F>, row: Row<F>, pivot: Row<F>, c: nat, j: nat)
    requires IsWordField(K) && ClearBelow(K, pivot, c) && j < c
    ensures K.bit(AddRow(K, row, pivot).coefficients, j) == K.bit(row.coefficients, j)
  {
    BitAdd(K, row.coefficients, pivot.coefficients, j);
  }

  lemma EliminatedBit<F(!new)>(K: Field<F>, rows: seq<Row<F>>, rows': seq<Row<F>>, r: nat, c: nat, k: nat, j: nat)
    requires IsWordField(K) && Eliminated(K, rows, rows', r, c, |rows|) && PivotRow(K, rows[r], c) && k < |rows| &&
      j <= c
    ensures j < c ==> K.bit(rows'[k].coefficients, j) == K.bit(rows[k].coefficients, j)
    ensures j == c ==> K.bit(rows'[k].coefficients, j) == (k == r)
  {
    if j < c {
      AddRowLeft(K, rows[k], rows[r], c, j);
    } else {
      BitAdd(K, rows[k].coefficients, rows[r].coefficients, c);
    }
  }

  lemma EliminateReduced<F(!new)>(K: Field<F>, rows: seq<Row<F>>, rows': seq<Row<F>>, pivots: seq<nat>, c: nat)
    requires IsWordField(K) && Reduced(K, rows, pivots, c) && |pivots| < |rows| && c < K.bits
    requires K.bit(rows[|pivots|].coefficients, c)
    requires Eliminated(K, rows, rows', |pivots|, c, |rows|)
    ensures Reduced(K, rows', pivots + [c], c + 1)
  {
    var r, pivots' := |pivots|, pivots + [c];
    forall k: nat, j: nat | k < |rows| && j <= c
      ensures j < c ==> K.bit(rows'[k].coefficients, j) == K.bit(rows[k].coefficients, j)
      ensures j == c ==> K.bit(rows'[k].coefficients, j) == (k == r)
    {
      EliminatedBit(K, rows, rows', r, c, k, j);
    }
    forall i | 0 <= i < |pivots'|
      ensures PivotRow(K, rows'[i], pivots'[i]) && PivotColumn(K, rows', i, pivots'[i])
    {
      if i < r {
        assert PivotRow(K, rows[i], pivots[i]) && PivotColumn(K, rows, i, pivots[i]);
      } else {
        assert ClearBelow(K, rows[r], c);
      }
    }
    forall k | |pivots'| <= k < |rows|
      ensures ClearBelow(K, rows'[k], c + 1)
    {
      assert ClearBelow(K, rows[k], c);
    }
  }

  lemma SkipReduced<F(!new)>(K: Field<F>, rows: seq<Row<F>>, pivots: seq<nat>, c: nat)
    requires Reduced(K, rows, pivots, c)
    requires forall k :: |pivots| <= k < |rows| ==> !K.bit(rows[k].coefficients, c)
    ensures Reduced(K, rows, pivots, c + 1)
  {
  }

  // ---- the loops

  /** Row r with the columns below `column` filled in and no right-hand side yet. */
  ghost predicate BuiltRow<F>(K: Field<F>, row: Row<F>, r: nat, column: nat) {
    && !row.rhs
    && forall j: nat :: j < K.bits ==> K.bit(row.coefficients, j) == (j < column && K.bit(Image(K, K.unit(j)), r))
  }

  lemma BuiltStart<F(!new)>(K: Field<F>, r: nat)
    requires IsWordField(K)
    ensures BuiltRow(K, Row(K.zero, false), r, 0)
  {
    forall j: nat | j < K.bits ensures !K.bit(K.zero, j) { BitZero(K, j); }
  }

  function FillColumn<F>(K: Field<F>, row: Row<F>, r: nat, column: nat, image: F): Row<F> {
    if K.bit(image, r) then row.(coefficients := SetBit(K, row.coefficients, column)) else row
  }

  lemma BuiltStep<F(!new)>(K: Field<F>, row: Row<F>, r: nat, column: nat)
    requires IsWordField(K) && column < K.bits && BuiltRow(K, row, r, column)
    ensures BuiltRow(K, FillColumn(K, row, r, column, Image(K, K.unit(column))), r, column + 1)
  {
    var row' := FillColumn(K, row, r, column, Image(K, K.unit(column)));
    forall j: nat | j < K.bits
      ensures K.bit(row'.coefficients, j) == (j < column + 1 && K.bit(Image(K, K.unit(j)), r))
    {
      BitSetBit(K, row.coefficients, column, j);
    }
  }

  method BuildRows<F(==,!new)>(K: Field<F>, target: F) returns (rows: seq<Row<F>>)
    requires IsWordField(K)
    ensures InitialSystem(K, target, rows)
  {
    rows := seq(K.bits, _ => Row(K.zero, false));
    forall r: nat | r < K.bits { BuiltStart(K, r); }
    for column := 0 to K.bits
      invariant |rows| == K.bits && forall r :: 0 <= r < K.bits ==> BuiltRow(K, rows[r], r, column)
    {
      var basis := K.unit(column);
      var image := K.add(K.mul(basis, basis), basis);
      for r := 0 to K.bits
        invariant |rows| == K.bits
        invariant forall k :: 0 <= k < K.bits ==> BuiltRow(K, rows[k], k, if k < r then column + 1 else column)
      {
        BuiltStep(K, rows[r], r, column);
        if K.bit(image, r) {
          rows := rows[r := rows[r].(coefficients := SetBit(K, rows[r].coefficients, column))];
        }
      }
    }
    for r := 0 to K.bits
      invariant |rows| == K.bits
      invariant forall k :: 0 <= k < r ==> InitialRow(K, target, rows[k], k)
      invariant forall k :: r <= k < K.bits ==> BuiltRow(K, rows[k], k, K.bits)
    {
      if K.bit(target, r) {
        rows := rows[r := rows[r].(rhs := true)];
      }
    }
  }

  method FindPivot<F(==,!new)>(K: Field<F>, rows: seq<Row<F>>, rank: nat, column: nat) returns (pivot: int)
    requires rank <= |rows|
    ensures pivot < 0 ==> forall k :: rank <= k < |rows| ==> !K.bit(rows[k].coefficients, column)
    ensures pivot >= 0 ==> rank <= pivot < |rows| && K.bit(rows[pivot].coefficients, column)
  {
    pivot := -1;
    var row := rank;
    while row < |rows|
      invariant rank <= row <= |rows|
      invariant forall k :: rank <= k < row ==> !K.bit(rows[k].coefficients, column)
    {
      if K.bit(rows[row].coefficients, column) {
        return row;
      }
      row := row + 1;
    }
  }

  lemma SameSolutionsTrans<F(!new)>(K: Field<F>, a: seq<Row<F>>, b: seq<Row<F>>, c: seq<Row<F>>)
    requires SameSolutions(K, a, b) && SameSolutions(K, b, c)
    ensures SameSolutions(K, a, c)
  {
    forall y
      ensures AllSat(K, a, y) <==> AllSat(K, c, y)
    {
      assert AllSat(K, a, y) <==> AllSat(K, b, y);
    }
  }

  method Eliminate<F(==,!new)>(K: Field<F>, rows0: seq<Row<F>>, rank: nat, column: nat) returns (rows: seq<Row<F>>)
    requires IsWordField(K) && rank < |rows0|
    ensures Eliminated(K, rows0, rows, rank, column, |rows0|) && SameSolutions(K, rows0, rows)
  {
    rows := rows0;
    var pivotRow := rows[rank];
    for row := 0 to |rows0|
      invariant Eliminated(K, rows0, rows, rank, column, row) && SameSolutions(K, rows0, rows)
    {
      if row != rank && K.bit(rows[row].coefficients, column) {
        EliminateRow(K, rows, row, rank);
        ghost var before := rows;
        rows := rows[row := AddRow(K, rows[row], pivotRow)];
        SameSolutionsTrans(K, rows0, before, rows);
      }
    }
  }

  /** Gauss-Jordan elimination, column by column. */
  method Reduce<F(==,!new)>(K: Field<F>, rows0: seq<Row<F>>)
      returns (rows: seq<Row<F>>, rank: nat, ghost pivots: seq<nat>)
    requires IsWordField(K) && |rows0| == K.bits
    ensures Reduced(K, rows, pivots, K.bits) && rank == |pivots| && SameSolutions(K, rows0, rows)
  {
    rows, rank, pivots := rows0, 0, [];
    for column := 0 to K.bits
      invariant Reduced(K, rows, pivots, column) && rank == |pivots| && SameSolutions(K, rows0, rows)
    {
      var pivot := FindPivot(K, rows, rank, column);
      if pivot < 0 {
        SkipReduced(K, rows, pivots, column);
        continue;
      }
      ghost var before := rows;
      SwapRows(K, rows, rank, pivot);
      SwapReduced(K, rows, pivots, column, pivot);
      rows := rows[rank := rows[pivot]][pivot := rows[rank]];
      ghost var swapped := rows;
      SameSolutionsTrans(K, rows0, before, rows);
      rows := Eliminate(K, rows, rank, column);
      SameSolutionsTrans(K, rows0, swapped, rows);
      EliminateReduced(K, swapped, rows, pivots, column);
      pivots := pivots + [column];
      rank := rank + 1;
    }
  }

  // ---- reading the solution off the reduced system

  lemma {:induction false} DotSingle<F(!new)>(K: Field<F>, c: F, y: F, p: nat, n: nat)
    requires forall j: nat :: j < n && j != p ==> !(K.bit(c, j) && K.bit(y, j))
    ensures DotTo(K, c, y, n) == (p < n && K.bit(c, p) && K.bit(y, p))
  {
    if n > 0 {
      DotSingle(K, c, y, p, n - 1);
    }
  }

  /** The solution has exactly the bits of the pivots whose right-hand side is set. */
  ghost predicate Reads<F>(K: Field<F>, rows: seq<Row<F>>, pivots: seq<nat>, n: nat, solution: F)
    requires n <= |pivots| <= |rows|
  {
    forall j: nat :: j < K.bits ==> (K.bit(solution, j) <==> exists i :: 0 <= i < n && pivots[i] == j && rows[i].rhs)
  }

  lemma ReadsSolves<F(!new)>(K: Field<F>, rows: seq<Row<F>>, pivots: seq<nat>, solution: F)
    requires IsWordField(K) && Reduced(K, rows, pivots, K.bits) && Reads(K, rows, pivots, |pivots|, solution)
    requires forall k :: |pivots| <= k < |rows| ==> !rows[k].rhs
    ensures AllSat(K, rows, solution)
  {
    forall k | 0 <= k < |rows|
      ensures Sat(K, rows[k], solution)
    {
      if k < |pivots| {
        var p := pivots[k];
        forall j: nat | j < K.bits && j != p
          ensures !(K.bit(rows[k].coefficients, j) && K.bit(solution, j))
        {
          if K.bit(solution, j) {
            var i :| 0 <= i < |pivots| && pivots[i] == j && rows[i].rhs;
            assert PivotColumn(K, rows, i, j);
          }
        }
        DotSingle(K, rows[k].coefficients, solution, p, K.bits);
        if K.bit(solution, p) {
          var i :| 0 <= i < |pivots| && pivots[i] == p && rows[i].rhs;
          assert i == k by { assert PivotColumn(K, rows, i, p); }
        }
      } else {
        assert ClearBelow(K, rows[k], K.bits);
        DotSingle(K, rows[k].coefficients, solution, 0, K.bits);
      }
    }
  }

  lemma ClearIsZero<F(!new)>(K: Field<F>, row: Row<F>)
    requires IsWordField(K)
    ensures ClearBelow(K, row, K.bits) <==> row.coefficients == K.zero
  {
    forall j: nat { BitZero(K, j); }
    if ClearBelow(K, row, K.bits) {
      WordEq(K, row.coefficients, K.zero);
    }
  }

  lemma InconsistentRow<F(!new)>(K: Field<F>, rows: seq<Row<F>>, i: nat, y: F)
    requires IsWordField(K) && i < |rows| && rows[i].coefficients == K.zero && rows[i].rhs
    ensures !AllSat(K, rows, y)
  {
    ClearIsZero(K, rows[i]);
    DotSingle(K, rows[i].coefficients, y, 0, K.bits);
    assert !Sat(K, rows[i], y);
  }

  method ReadSolution<F(==,!new)>(K: Field<F>, rows: seq<Row<F>>, rank: nat, ghost pivots: seq<nat>)
      returns (ok: bool, solution: F)
    requires IsWordField(K) && Reduced(K, rows, pivots, K.bits) && rank == |pivots|
    ensures ok && Reads(K, rows, pivots, |pivots|, solution)
  {
    solution := K.zero;
    forall j: nat { BitZero(K, j); }
    for i := 0 to rank
      invariant Reads(K, rows, pivots, i, solution)
    {
      assert PivotRow(K, rows[i], pivots[i]);
      ClearIsZero(K, rows[i]);
      assert rows[i].coefficients != K.zero;
      var pivot := TrailingZeros(K, rows[i].coefficients, 0);
      assert pivot == pivots[i];
      if rows[i].rhs {
        ghost var before := solution;
        forall j: nat | j < K.bits
          ensures K.bit(SetBit(K, before, pivot), j) == (K.bit(before, j) || j == pivot)
        {
          BitSetBit(K, before, pivot, j);
        }
        solution := SetBit(K, solution, pivot);
      }
    }
    ok := true;
  }

  /** Succeeds exactly when y^2 + y = target has a solution, and returns one. */
  method SolveQuadraticForm<F(==,!new)>(K: Field<F>, target: F) returns (ok: bool, solution: F)
    requires IsWordField(K)
    ensures ok <==> exists y :: Image(K, y) == target
    ensures ok ==> Image(K, solution) == target
  {
    var rows0 := BuildRows(K, target);
    var rows, rank;
    ghost var pivots;
    rows, rank, pivots := Reduce(K, rows0);
    forall y { InitialSolutions(K, target, rows0, y); }
    for i := 0 to |rows|
      invariant forall k :: 0 <= k < i ==> !(rows[k].coefficients == K.zero && rows[k].rhs)
    {
      if rows[i].coefficients == K.zero && rows[i].rhs {
        forall y
          ensures Image(K, y) != target
        {
          InconsistentRow(K, rows, i, y);
          assert AllSat(K, rows0, y) <==> AllSat(K, rows, y);
        }
        return false, K.zero;
      }
    }
    forall k | |pivots| <= k < |rows|
      ensures !rows[k].rhs
    {
      assert ClearBelow(K, rows[k], K.bits);
      ClearIsZero(K, rows[k]);
    }
    ok, solution := ReadSolution(K, rows, rank, pivots);
    ReadsSolves(K, rows, pivots, solution);
    assert AllSat(K, rows0, solution) <==> AllSat(K, rows, solution);
    assert Image(K, solution) == target;
  }
}
