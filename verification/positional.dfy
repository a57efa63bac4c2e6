/** The original reads the two parallel arrays the assignment solver returns (used rows in
    increasing order, and the column solved to each) by POSITION: truth `i` takes its track from
    position `i` of the column array, track `j` its truth from position `j` of the row array. The
    intended reading is a lookup of the column solved to row `i` and of the row solved to column
    `j`, which is what `DataTruthAnalyzer.Associate` computes. This module models the reading as
    written; `PositionalPairing` exhibits inputs where it records a wrong track and where it runs
    past the end of an array. */
module PositionalReading {
  import opened Wrappers
  import opened Errors
  import opened Seqs

  /** The rows below `n` that the assignment uses, in increasing order. */
  function UsedRows(sol: seq<nat>, n: nat): (rows: seq<nat>)
    ensures forall i :: i in rows <==> i < n && i in sol
    ensures forall p :: 0 <= p < |rows| ==> rows[p] < n
    ensures forall p, q :: 0 <= p < q < |rows| ==> rows[p] < rows[q]
  {
    if n == 0 then [] else UsedRows(sol, n - 1) + (if n - 1 in sol then [n - 1] else [])
  }

  /** The solver's two result arrays for the column-to-row assignment `sol` of a matrix with
      `nRows` rows: the used rows in increasing order and, at the same position, the column
      solved to each. */
  function SolverArrays(sol: seq<nat>, nRows: nat): (arrays: (seq<nat>, seq<nat>))
    ensures |arrays.0| == |arrays.1|
    ensures forall i :: i in arrays.0 <==> i < nRows && i in sol
    ensures forall p, q :: 0 <= p < q < |arrays.0| ==> arrays.0[p] < arrays.0[q]
    ensures forall p :: 0 <= p < |arrays.0| ==> arrays.1[p] < |sol| && sol[arrays.1[p]] == arrays.0[p]
  {
    var rows := UsedRows(sol, nRows);
    (rows, seq(|rows|, p requires 0 <= p < |rows| => IndexOf(sol, rows[p])))
  }

  /** The truths among the first `n` that the truth loop counts as assigned. */
  function UsedBelow(rowInd: seq<nat>, n: nat): set<nat> {
    set i: nat | i < n && i in rowInd
  }

  /** One more truth adds one to the used count exactly when it is among the used rows. */
  lemma UsedBelowStep(rowInd: seq<nat>, n: nat)
    requires n > 0
    ensures |UsedBelow(rowInd, n)| == |UsedBelow(rowInd, n - 1)| + (if n - 1 in rowInd then 1 else 0)
  {
    if n - 1 in rowInd {
      assert UsedBelow(rowInd, n) == UsedBelow(rowInd, n - 1) + {n - 1};
    } else {
      assert UsedBelow(rowInd, n) == UsedBelow(rowInd, n - 1);
    }
  }

  /** The truth loop as written, over the first `n` valid truths: truth `i` is assigned when `i` is
      among the used rows, and its track is read at position `i` of the column array; the
      track-to-truth array is written at that track, a later truth overwriting an earlier one.
      Yields the truth-to-track array, the track-to-truth array and the number of assigned truths. */
  function TruthLoopAsWritten(rowInd: seq<nat>, colInd: seq<nat>, truthIds: seq<int>, trkIds: seq<int>, n: nat)
    : (r: Result<(seq<int>, seq<int>, nat), Error>)
    requires n <= |truthIds|
    ensures r.Failure? <==> exists i :: 0 <= i < n && i in rowInd && (i >= |colInd| || colInd[i] >= |trkIds|)
    ensures r.Success? ==> forall i :: 0 <= i < n && i in rowInd ==> i < |colInd| && colInd[i] < |trkIds|
    ensures r.Success? ==> |r.value.0| == |truthIds| && |r.value.1| == |trkIds|
    ensures r.Success? ==> r.value.2 == |UsedBelow(rowInd, n)|
    ensures r.Success? ==> forall i :: 0 <= i < n ==>
              r.value.0[i] == if i in rowInd then trkIds[colInd[i]] else -1
    ensures r.Success? ==> forall i :: n <= i < |truthIds| ==> r.value.0[i] == -1
  {
    if n == 0 then
      assert UsedBelow(rowInd, 0) == {};
      Success((seq(|truthIds|, _ => -1), seq(|trkIds|, _ => -1), 0))
    else
      var acc :- TruthLoopAsWritten(rowInd, colInd, truthIds, trkIds, n - 1);
      var i := n - 1;
      UsedBelowStep(rowInd, n);
      if i !in rowInd then Success(acc)
      else if i >= |colInd| || colInd[i] >= |trkIds| then Failure(PositionOutOfRange(i))
      else Success((acc.0[i := trkIds[colInd[i]]], acc.1[colInd[i] := truthIds[i]], acc.2 + 1))
  }

  /** The track-to-truth array the truth loop stores: a track that no assigned truth reads keeps
      -1, and a track holds the truth of the last assigned truth that reads it. */
  lemma {:induction false} TruthLoopStoresLastReader(rowInd: seq<nat>, colInd: seq<nat>, truthIds: seq<int>,
                                                     trkIds: seq<int>, n: nat)
    requires n <= |truthIds|
    ensures var r := TruthLoopAsWritten(rowInd, colInd, truthIds, trkIds, n);
      && (r.Success? ==> forall j ::
            (0 <= j < |trkIds| && forall i :: 0 <= i < n && i in rowInd ==> colInd[i] != j) ==> r.value.1[j] == -1)
      && (r.Success? ==> forall i ::
            (0 <= i < n && i in rowInd && forall i' :: i < i' < n && i' in rowInd ==> colInd[i'] != colInd[i])
            ==> r.value.1[colInd[i]] == truthIds[i])
  {
    var r := TruthLoopAsWritten(rowInd, colInd, truthIds, trkIds, n);
    if n > 0 && r.Success? {
      TruthLoopStoresLastReader(rowInd, colInd, truthIds, trkIds, n - 1);
      var acc := TruthLoopAsWritten(rowInd, colInd, truthIds, trkIds, n - 1).value;
      var i := n - 1;
      forall j | 0 <= j < |trkIds| && forall i0 :: 0 <= i0 < n && i0 in rowInd ==> colInd[i0] != j
        ensures r.value.1[j] == -1
      {
        if i in rowInd {
          assert colInd[i] != j;
        }
      }
      forall i0 | 0 <= i0 < n && i0 in rowInd && forall i' :: i0 < i' < n && i' in rowInd ==> colInd[i'] != colInd[i0]
        ensures r.value.1[colInd[i0]] == truthIds[i0]
      {
        if i0 < i && i in rowInd {
          assert colInd[i] != colInd[i0];
        }
      }
    }
  }

  /** The counterpart of track `j` in the track loop as written: when `j` is among the columns,
      the row at position `j` of the row array, and -1 when that row is synthetic. */
  function TrackCounterpartAsWritten(rowInd: seq<nat>, colInd: seq<nat>, truthIds: seq<int>, j: nat)
    : (r: Result<int, Error>)
    ensures r.Failure? <==> j in colInd && j >= |rowInd|
    ensures r.Success? ==> r.value == -1 || r.value in truthIds
    ensures r.Success? && r.value != -1 ==> j in colInd && rowInd[j] < |truthIds| && r.value == truthIds[rowInd[j]]
    ensures j !in colInd ==> r == Success(-1)
    ensures j in colInd && j < |rowInd| ==>
              r == Success(if rowInd[j] < |truthIds| then truthIds[rowInd[j]] else -1)
  {
    if j !in colInd then Success(-1)
    else if j >= |rowInd| then Failure(PositionOutOfRange(j))
    else if rowInd[j] < |truthIds| then Success(truthIds[rowInd[j]])
    else Success(-1)
  }

  /** Two increasing listings of the same rows are the same sequence. */
  lemma {:induction false} IncreasingListingIsUnique(a: seq<nat>, b: seq<nat>)
    requires forall p, q :: 0 <= p < q < |a| ==> a[p] < a[q]
    requires forall p, q :: 0 <= p < q < |b| ==> b[p] < b[q]
    requires forall i :: i in a <==> i in b
    ensures a == b
    decreases |a|
  {
    assert |a| > 0 ==> a[0] in a;
    assert |b| > 0 ==> b[0] in b;
    if |a| != 0 {
      assert a[0] == b[0] by {
        assert a[0] in b && b[0] in a;
      }
      forall i | i in a[1..] ensures i in b[1..] {
        assert i in b && i != b[0];
      }
      forall i | i in b[1..] ensures i in a[1..] {
        assert i in a && i != a[0];
      }
      IncreasingListingIsUnique(a[1..], b[1..]);
      assert a == [a[0]] + a[1..] && b == [b[0]] + b[1..];
    }
  }

  /** When the solver hands out rows in increasing column order, the row array is the assignment
      itself and the column array counts up from 0: the positional reading is then correct. */
  lemma IncreasingAssignmentArrays(sol: seq<nat>, nRows: nat)
    requires forall p, q :: 0 <= p < q < |sol| ==> sol[p] < sol[q]
    requires forall p :: 0 <= p < |sol| ==> sol[p] < nRows
    ensures SolverArrays(sol, nRows).0 == sol
    ensures SolverArrays(sol, nRows).1 == seq(|sol|, p => p)
  {
    var arrays := SolverArrays(sol, nRows);
    IncreasingListingIsUnique(arrays.0, sol);
    forall p | 0 <= p < |sol| ensures arrays.1[p] == p {
      assert sol[arrays.1[p]] == sol[p];
    }
  }
}

/** Two concrete time steps, with any solver meeting the assignment contract, where the
    positional reading of `PositionalReading` disagrees with the intended reading of
    `DataTruthAnalyzer.Associate`. Truths 1 and 2 and tracks 20 and 21 are listed in increasing
    order both by a Python 3 dictionary (insertion order) and by a Python 2 one (hash-slot order of
    small integer keys), so the valid ID lists are the same under either interpreter. */
module PositionalPairing {
  import opened Wrappers
  import opened Seqs
  import opened LinearSumAssignment
  import opened CostMatrix
  import opened DataTruthAnalyzer
  import opened PositionalReading

  /** The solver arrays of that assignment. */
  lemma MisassignArrays()
    ensures SolverArrays([1, 3], 4) == ([1, 3], [0, 1])
  {
    IncreasingAssignmentArrays([1, 3], 4);
    assert seq(2, p => p) == [0, 1];
  }

  /** The truth loop as written on those arrays: truth 2 gets track 21, and the stored
      track-to-truth array gives track 21 truth 2 and track 20 nothing. */
  lemma MisassignLoop()
    ensures TruthLoopAsWritten([1, 3], [0, 1], [1, 2], [20, 21], 2).Success?
    ensures TruthLoopAsWritten([1, 3], [0, 1], [1, 2], [20, 21], 2).value.0 == [-1, 21]
    ensures TruthLoopAsWritten([1, 3], [0, 1], [1, 2], [20, 21], 2).value.1 == [-1, 2]
    ensures TruthLoopAsWritten([1, 3], [0, 1], [1, 2], [20, 21], 2).value.2 == 1
  {
    var r := TruthLoopAsWritten([1, 3], [0, 1], [1, 2], [20, 21], 2);
    assert 0 !in [1, 3] && 1 in [1, 3];
    assert r.Success?;
    assert r.value.0[0] == -1 && r.value.0[1] == 21;
    assert r.value.1[0] == -1 && r.value.1[1] == 2;
    assert UsedBelow([1, 3], 2) == {1};
  }

  /** The as-written code disagrees with itself on those arrays: the track loop reads truth 2 for
      track 20 and nothing for track 21, the reverse of the track-to-truth array the truth loop
      stores for the step. */
  lemma MisassignTrackLoop()
    ensures TrackCounterpartAsWritten([1, 3], [0, 1], [1, 2], 0) == Success(2)
    ensures TrackCounterpartAsWritten([1, 3], [0, 1], [1, 2], 1) == Success(-1)
    ensures TruthLoopAsWritten([1, 3], [0, 1], [1, 2], [20, 21], 2).Success?
    ensures TruthLoopAsWritten([1, 3], [0, 1], [1, 2], [20, 21], 2).value.1 == [-1, 2]
  {
    assert 0 in [0, 1] && 1 in [0, 1];
    MisassignLoop();
  }

  /** The solver arrays and the truth loop as written for the assignment `[1]` of two truths and
      one track: position 1 of the one-element column array does not exist. */
  lemma OverrunArrays()
    ensures SolverArrays([1], 3) == ([1], [0])
    ensures TruthLoopAsWritten([1], [0], [1, 2], [20], 2).Failure?
  {
    IncreasingAssignmentArrays([1], 3);
    assert seq(1, p => p) == [0];
    assert 1 in [1];
  }

  /** The cost of a two-column assignment is the sum of its two entries. */
  lemma CostOfTwo(m: Matrix, a: nat, b: nat)
    requires Rectangular(m) && 2 <= Cols(m) && a < |m| && b < |m|
    ensures Cost(m, [a, b]) == m[a][0] + m[b][1]
  {
    var s := [a, b];
    assert s[..1] == [a];
    assert [a][..0] == [];
    assert Cost(m, [a]) == Cost(m, []) + m[a][0];
    assert Cost(m, s) == Cost(m, [a]) + m[b][1];
  }

  /** The gate verdicts of the first counterexample: only row 1 (truth 2) and column 0 (track 20)
      are inside the gate, at distance 0. */
  lemma MisassignMatrix(sqrt: real -> real)
    requires IsSqrt(sqrt)
    ensures var m := BuildMatrix([Pos(Some(100.0), Some(0.0)), Pos(Some(0.0), Some(0.0))],
                                 [Pos(Some(0.0), Some(0.0)), Pos(Some(50.0), Some(0.0))], sqrt);
            && Gated(m, 2, 2)
            && m[0][0] == ImpossibleScore && m[0][1] == ImpossibleScore
            && m[1][0] < AssocGate && m[1][1] == ImpossibleScore
  {
    var truthPos := [Pos(Some(100.0), Some(0.0)), Pos(Some(0.0), Some(0.0))];
    var trkPos := [Pos(Some(0.0), Some(0.0)), Pos(Some(50.0), Some(0.0))];
    var m := BuildMatrix(truthPos, trkPos, sqrt);
    assert !InGate(truthPos[0], trkPos[0]) && !InGate(truthPos[0], trkPos[1]) && !InGate(truthPos[1], trkPos[1]);
    assert InGate(truthPos[1], trkPos[0]);
  }

  /** The only optimal assignment of that matrix: column 0 on row 1, column 1 on its synthetic row. */
  lemma MisassignSolution(m: Matrix, sol: seq<nat>)
    requires Gated(m, 2, 2) && IsOptimal(m, sol)
    requires m[0][0] == ImpossibleScore && m[0][1] == ImpossibleScore
    requires m[1][0] < AssocGate && m[1][1] == ImpossibleScore
    ensures sol == [1, 3]
  {
    GatedIsSolvable(m, 2, 2);
    OptimalAvoidsImpossible(m, 2, 2, sol);
    assert sol[1] == 3;
    assert IsAssignment(m, [1, 3]);
    assert Cost(m, sol) <= Cost(m, [1, 3]);
    CostOfTwo(m, 1, 3);
    CostOfTwo(m, sol[0], sol[1]);
    assert m[3][1] == NewTrackScore && m[2][0] == NewTrackScore;
    assert m[sol[0]][0] <= m[1][0] < NewTrackScore;
    assert sol[0] == 1;
  }

  /** Truth 1 far from every track, truth 2 on top of track 20, track 21 far from every truth: the
      solver must put track 20 on truth 2's row and track 21 on its own synthetic row. Read by
      position, truth 2 records track 21 (a track outside its gate), while the intended reading
      records track 20. */
  lemma PositionalReadMisassigns(sqrt: real -> real, solve: Matrix -> seq<nat>)
    requires IsSqrt(sqrt) && IsSolver(solve)
    ensures var truthPos := [Pos(Some(100.0), Some(0.0)), Pos(Some(0.0), Some(0.0))];
            var trkPos := [Pos(Some(0.0), Some(0.0)), Pos(Some(50.0), Some(0.0))];
            var m := BuildMatrix(truthPos, trkPos, sqrt);
            var arrays := SolverArrays(solve(m), |m|);
            && solve(m) == [1, 3]
            && TruthLoopAsWritten(arrays.0, arrays.1, [1, 2], [20, 21], 2).Success?
            && TruthLoopAsWritten(arrays.0, arrays.1, [1, 2], [20, 21], 2).value.0 == [-1, 21]
            && Associate(0.0, [1, 2], truthPos, [20, 21], trkPos, sqrt, solve(m)).truthTrackAssignment == [-1, 20]
  {
    var truthPos := [Pos(Some(100.0), Some(0.0)), Pos(Some(0.0), Some(0.0))];
    var trkPos := [Pos(Some(0.0), Some(0.0)), Pos(Some(50.0), Some(0.0))];
    var m := BuildMatrix(truthPos, trkPos, sqrt);
    MisassignMatrix(sqrt);
    GatedIsSolvable(m, 2, 2);
    MisassignSolution(m, solve(m));
    MisassignReadings();
  }

  /** The two readings of the assignment `[1, 3]` of two truths and two tracks. */
  lemma MisassignReadings()
    ensures var arrays := SolverArrays([1, 3], 4);
            && TruthLoopAsWritten(arrays.0, arrays.1, [1, 2], [20, 21], 2).Success?
            && TruthLoopAsWritten(arrays.0, arrays.1, [1, 2], [20, 21], 2).value.0 == [-1, 21]
            && TruthTrackAssignment([1, 3], 2, [20, 21]) == [-1, 20]
  {
    MisassignArrays();
    MisassignLoop();
    assert IndexOf([1, 3], 1) == 0;
  }

  /** Truth 1 far away, truth 2 on top of the only track 20: the solver puts the track on truth 2's
      row, and reading position 1 of the one-element column array runs past its end, while the
      intended reading records track 20 for truth 2. */
  lemma PositionalReadOverruns(sqrt: real -> real, solve: Matrix -> seq<nat>)
    requires IsSqrt(sqrt) && IsSolver(solve)
    ensures var truthPos := [Pos(Some(100.0), Some(0.0)), Pos(Some(0.0), Some(0.0))];
            var trkPos := [Pos(Some(0.0), Some(0.0))];
            var m := BuildMatrix(truthPos, trkPos, sqrt);
            var arrays := SolverArrays(solve(m), |m|);
            && solve(m) == [1]
            && TruthLoopAsWritten(arrays.0, arrays.1, [1, 2], [20], 2).Failure?
            && Associate(0.0, [1, 2], truthPos, [20], trkPos, sqrt, solve(m)).truthTrackAssignment == [-1, 20]
  {
    var truthPos := [Pos(Some(100.0), Some(0.0)), Pos(Some(0.0), Some(0.0))];
    var trkPos := [Pos(Some(0.0), Some(0.0))];
    var m := BuildMatrix(truthPos, trkPos, sqrt);
    assert !InGate(truthPos[0], trkPos[0]) && InGate(truthPos[1], trkPos[0]);
    GatedIsSolvable(m, 2, 1);
    OverrunSolution(m, solve(m));
    OverrunReadings();
  }

  /** The two readings of the assignment `[1]` of two truths and one track. */
  lemma OverrunReadings()
    ensures var arrays := SolverArrays([1], 3);
            && TruthLoopAsWritten(arrays.0, arrays.1, [1, 2], [20], 2).Failure?
            && TruthTrackAssignment([1], 2, [20]) == [-1, 20]
  {
    OverrunArrays();
    assert IndexOf([1], 1) == 0;
  }

  /** The only optimal assignment of the second counterexample's matrix puts its one column on row 1. */
  lemma OverrunSolution(m: Matrix, sol: seq<nat>)
    requires Gated(m, 2, 1) && IsOptimal(m, sol)
    requires m[0][0] == ImpossibleScore && m[1][0] < AssocGate
    ensures sol == [1]
  {
    GatedIsSolvable(m, 2, 1);
    OptimalAvoidsImpossible(m, 2, 1, sol);
    assert IsAssignment(m, [1]);
    assert Cost(m, sol) <= Cost(m, [1]);
    assert Cost(m, [1]) == m[1][0] by { assert [1][..0] == []; }
    assert Cost(m, sol) == m[sol[0]][0] by { assert sol[..0] == []; }
  }
}
