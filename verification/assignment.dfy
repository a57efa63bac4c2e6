/** The contract of a rectangular linear-sum-assignment solver (scipy's `linear_sum_assignment`):
    every column receives a distinct row and the total cost is minimal. The solver itself is not
    part of the model; callers receive it as a function and may rely only on this contract. */
module LinearSumAssignment {

  /** A row-major cost matrix. */
  type Matrix = seq<seq<real>>

  /** The number of columns; an empty matrix has none. */
  function Cols(m: Matrix): nat {
    if |m| == 0 then 0 else |m[0]|
  }

  ghost predicate Rectangular(m: Matrix) {
    forall i :: 0 <= i < |m| ==> |m[i]| == Cols(m)
  }

  /** `sol[j]` is the row given to column `j`: one row per column, no row used twice. */
  predicate IsAssignment(m: Matrix, sol: seq<nat>) {
    && |sol| == Cols(m)
    && (forall j :: 0 <= j < |sol| ==> sol[j] < |m|)
    && (forall j, k :: 0 <= j < k < |sol| ==> sol[j] != sol[k])
  }

  /** The total cost of the entries an assignment picks. */
  function Cost(m: Matrix, sol: seq<nat>): real
    requires Rectangular(m) && |sol| <= Cols(m)
    requires forall j :: 0 <= j < |sol| ==> sol[j] < |m|
  {
    if |sol| == 0 then 0.0
    else Cost(m, sol[..|sol| - 1]) + m[sol[|sol| - 1]][|sol| - 1]
  }

  /** A minimum-cost assignment. */
  ghost predicate IsOptimal(m: Matrix, sol: seq<nat>) {
    && Rectangular(m)
    && IsAssignment(m, sol)
    && forall other :: IsAssignment(m, other) ==> Cost(m, sol) <= Cost(m, other)
  }

  /** What a correct solver promises on every matrix with at least as many rows as columns. */
  ghost predicate IsSolver(solve: Matrix -> seq<nat>) {
    forall m :: Rectangular(m) && Cols(m) <= |m| ==> IsOptimal(m, solve(m))
  }

  /** Moving one column to another row changes the cost by exactly the difference of the two entries. */
  lemma {:induction false} CostUpdate(m: Matrix, sol: seq<nat>, j: nat, r: nat)
    requires Rectangular(m) && |sol| <= Cols(m)
    requires forall k :: 0 <= k < |sol| ==> sol[k] < |m|
    requires j < |sol| && r < |m|
    ensures Cost(m, sol[j := r]) == Cost(m, sol) - m[sol[j]][j] + m[r][j]
  {
    var n := |sol| - 1;
    var upd := sol[j := r];
    if j == n {
      assert upd[..n] == sol[..n];
    } else {
      assert upd[..n] == sol[..n][j := r];
      CostUpdate(m, sol[..n], j, r);
    }
  }
}

/** The gated cost matrix of one time step: a truth row per valid truth, a column per valid track,
    and one synthetic "new track" row per track. */
module CostMatrix {
  import opened Wrappers
  import opened Seqs
  import opened LinearSumAssignment

  /** The cost of a pair that may never be assigned. */
  const ImpossibleScore: real := 10000000000.0
  /** The cost of leaving a track unassigned (its synthetic row). */
  const NewTrackScore: real := 10.0
  /** Pairs at this distance or farther are not associated. */
  const AssocGate: real := 2.0

  /** The `X` and `Y` values of a record; `None` is NaN. */
  datatype Pos = Pos(x: Option<real>, y: Option<real>)

  /** `math.sqrt` is outside the model; the caller supplies a function meeting this description. */
  ghost predicate IsSqrt(sqrt: real -> real) {
    forall q: real :: 0.0 <= q ==> 0.0 <= sqrt(q) && sqrt(q) * sqrt(q) == q
  }

  predicate HasCoordinates(a: Pos) {
    a.x.Some? && a.y.Some?
  }

  /** The squared Euclidean distance of two complete positions. */
  function SquaredDistance(a: Pos, b: Pos): (q: real)
    requires HasCoordinates(a) && HasCoordinates(b)
    ensures 0.0 <= q
  {
    var dx := a.x.value - b.x.value;
    var dy := a.y.value - b.y.value;
    dx * dx + dy * dy
  }

  /** The pair lies strictly inside the association gate, stated without square roots. */
  predicate InGate(a: Pos, b: Pos) {
    HasCoordinates(a) && HasCoordinates(b) && SquaredDistance(a, b) < AssocGate * AssocGate
  }

  /** `_getScore`: the distance when it is strictly below the gate, otherwise the impossible cost
      (a NaN distance fails the comparison and is impossible too). */
  function Score(a: Pos, b: Pos, sqrt: real -> real): (s: real)
    requires IsSqrt(sqrt)
    ensures InGate(a, b) ==> 0.0 <= s < AssocGate && s * s == SquaredDistance(a, b)
    ensures !InGate(a, b) ==> s == ImpossibleScore
  {
    if HasCoordinates(a) && HasCoordinates(b) then
      var d := sqrt(SquaredDistance(a, b));
      GateBySquares(SquaredDistance(a, b), d);
      if d < AssocGate then d else ImpossibleScore
    else ImpossibleScore
  }

  /** A non-negative root is below the gate exactly when its square is below the gate's square. */
  lemma GateBySquares(q: real, d: real)
    requires 0.0 <= d && d * d == q
    ensures d < AssocGate <==> q < AssocGate * AssocGate
  {
    if d < AssocGate {
      assert d * d <= d * AssocGate < AssocGate * AssocGate;
    } else {
      assert AssocGate * AssocGate <= d * AssocGate <= d * d;
    }
  }

  /** The shape every cost matrix of the engine has: `nT + nK` rows of `nK` entries, entries between
      0 and the impossible cost, and row `nT + j` finite (the new-track cost) only in column `j`. */
  ghost predicate Gated(m: Matrix, nT: nat, nK: nat) {
    && |m| == nT + nK
    && (forall i :: 0 <= i < |m| ==> |m[i]| == nK)
    && (forall i, j :: 0 <= i < |m| && 0 <= j < nK ==> 0.0 <= m[i][j] <= ImpossibleScore)
    && (forall i, j :: nT <= i < |m| && 0 <= j < nK ==>
          m[i][j] == if i == nT + j then NewTrackScore else ImpossibleScore)
  }

  /** `_createAssignmentMatrix`. */
  function BuildMatrix(truths: seq<Pos>, tracks: seq<Pos>, sqrt: real -> real): (m: Matrix)
    requires IsSqrt(sqrt)
    ensures Gated(m, |truths|, |tracks|)
    ensures forall i, j :: 0 <= i < |truths| && 0 <= j < |tracks| ==>
              (m[i][j] < ImpossibleScore <==> InGate(truths[i], tracks[j]))
    ensures forall i, j :: 0 <= i < |truths| && 0 <= j < |tracks| && m[i][j] < ImpossibleScore ==>
              && InGate(truths[i], tracks[j])
              && 0.0 <= m[i][j] < AssocGate
              && m[i][j] * m[i][j] == SquaredDistance(truths[i], tracks[j])
  {
    var nT := |truths|;
    var nK := |tracks|;
    seq(nT + nK, i requires 0 <= i < nT + nK =>
      seq(nK, j requires 0 <= j < nK =>
        if i < nT then Score(truths[i], tracks[j], sqrt)
        else if i == nT + j then NewTrackScore
        else ImpossibleScore))
  }

  /** A gated matrix is rectangular with one column per track and enough rows for a solver. */
  lemma GatedIsSolvable(m: Matrix, nT: nat, nK: nat)
    requires Gated(m, nT, nK)
    ensures Rectangular(m) && Cols(m) == nK && Cols(m) <= |m|
  {
  }

  /** From an assignment that pays the impossible cost in column `j`, a strictly cheaper one:
      move `j` to its own synthetic row, handing that row's column the row `j` gave up. */
  lemma ImprovingMove(m: Matrix, nT: nat, nK: nat, sol: seq<nat>, j: nat) returns (other: seq<nat>)
    requires Gated(m, nT, nK) && IsAssignment(m, sol) && j < nK
    requires m[sol[j]][j] == ImpossibleScore
    ensures IsAssignment(m, other) && Cost(m, other) < Cost(m, sol)
  {
    GatedIsSolvable(m, nT, nK);
    var s := nT + j;
    var r := sol[j];
    assert m[s][j] == NewTrackScore;
    if s !in sol {
      other := sol[j := s];
      CostUpdate(m, sol, j, s);
    } else {
      var j' := IndexOf(sol, s);
      var mid := sol[j := s];
      other := mid[j' := r];
      CostUpdate(m, sol, j, s);
      CostUpdate(m, mid, j', r);
      assert m[s][j'] == ImpossibleScore;
      forall a, b | 0 <= a < b < |other| ensures other[a] != other[b] {
        if a != j && a != j' && b != j && b != j' {
          assert other[a] == sol[a] && other[b] == sol[b];
        }
      }
    }
  }

  /** An optimal assignment of a gated matrix never pays the impossible cost, whatever the number
      of tracks: every column sits on a gated truth pair or on its own synthetic row. */
  lemma OptimalAvoidsImpossible(m: Matrix, nT: nat, nK: nat, sol: seq<nat>)
    requires Gated(m, nT, nK) && IsOptimal(m, sol)
    ensures forall j :: 0 <= j < nK ==> m[sol[j]][j] < ImpossibleScore
    ensures forall j :: 0 <= j < nK && nT <= sol[j] ==> sol[j] == nT + j
  {
    forall j | 0 <= j < nK ensures m[sol[j]][j] < ImpossibleScore {
      if m[sol[j]][j] == ImpossibleScore {
        var other := ImprovingMove(m, nT, nK, sol, j);
        assert false;
      }
    }
  }
}
