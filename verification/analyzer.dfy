/** The track-to-truth association engine: at every time of the track time axis it takes the
    snapshot of valid tracks and truths, builds the gated cost matrix, solves the assignment,
    classifies every truth and track and appends the result to the per-entity histories. */
module DataTruthAnalyzer {
  import opened Wrappers
  import opened Errors
  import opened Seqs
  import opened DataManager
  import opened LinearSumAssignment
  import opened CostMatrix

  /** One entry of `allTimeData`. */
  datatype StepData = StepData(
    time: real,
    numAssociatedTrks: nat,
    numAssignedTrks: nat,
    validTrkIds: seq<int>,
    validTruthIds: seq<int>,
    truthTrackAssignment: seq<int>,
    trackTruthAssignment: seq<int>)
  {
    /** One assignment entry per valid truth and per valid track. */
    predicate Shaped() {
      |truthTrackAssignment| == |validTruthIds| && |trackTruthAssignment| == |validTrkIds|
    }

    /** `numAssignedTrks` is the number of truths that recorded a track, and equally the number of
        tracks that recorded a truth. */
    predicate CountsAssigned()
      requires Shaped()
    {
      && numAssignedTrks == |set i: nat | i < |truthTrackAssignment| && truthTrackAssignment[i] != -1|
      && numAssignedTrks == |set j: nat | j < |trackTruthAssignment| && trackTruthAssignment[j] != -1|
    }
  }

  /** The association history of one entity: the times it was valid and its counterpart at each
      (`-1` when it had none). */
  datatype History = History(times: seq<real>, ids: seq<int>)

  /** Everything the engine exposes after a run. */
  datatype Analysis = Analysis(
    allTimeData: seq<StepData>,
    truthAssignments: map<int, History>,
    trackAssignments: map<int, History>)

  // ---------------------------------------------------------------- classification of one step

  /** Some truth row of column `j` is below the impossible cost. */
  predicate ColumnAssociated(m: Matrix, nT: nat, j: nat)
    requires nT <= |m| && forall i :: 0 <= i < nT ==> j < |m[i]|
  {
    exists i :: 0 <= i < nT && m[i][j] < ImpossibleScore
  }

  /** Track columns that have at least one truth row below the impossible cost. */
  function AssociatedColumns(m: Matrix, nT: nat, nK: nat): set<nat>
    requires Gated(m, nT, nK)
  {
    set j | j in Range(nK) && ColumnAssociated(m, nT, j)
  }

  /** Truth rows that the solver gave to some column. */
  function AssignedRows(sol: seq<nat>, nT: nat): set<nat> {
    set i: nat | i < nT && i in sol
  }

  /** Track columns that the solver put on a truth row. */
  ghost function AssignedColumns(sol: seq<nat>, nT: nat): set<nat> {
    set j: nat | j < |sol| && sol[j] < nT
  }

  /** Tracks with some truth inside the gate, stated on positions. */
  ghost function TracksNearSomeTruth(truths: seq<Pos>, tracks: seq<Pos>): set<nat> {
    set j: nat | j < |tracks| && exists i :: 0 <= i < |truths| && InGate(truths[i], tracks[j])
  }

  /** The counts of an optimal step: assigned tracks are one per assigned truth, never more than
      the truths, and never more than the associated tracks, which never exceed the tracks. */
  lemma StepCounts(m: Matrix, nT: nat, nK: nat, sol: seq<nat>)
    requires Gated(m, nT, nK) && IsOptimal(m, sol)
    ensures |AssignedRows(sol, nT)| == |AssignedColumns(sol, nT)|
    ensures |AssignedRows(sol, nT)| <= nT
    ensures |AssignedColumns(sol, nT)| <= |AssociatedColumns(m, nT, nK)| <= nK
  {
    GatedIsSolvable(m, nT, nK);
    OptimalAvoidsImpossible(m, nT, nK, sol);
    var cols := AssignedColumns(sol, nT);
    var rows := AssignedRows(sol, nT);
    InjectiveImageCard(cols, sol);
    assert rows == set j | j in cols :: sol[j] by {
      forall i | i in rows ensures i in set j | j in cols :: sol[j] {
        var j := IndexOf(sol, i);
        assert j in cols;
      }
    }
    SubsetCard(rows, Range(nT));
    SubsetCard(cols, AssociatedColumns(m, nT, nK));
    SubsetCard(AssociatedColumns(m, nT, nK), Range(nK));
  }

  /** `truthTrackAssignment`: the track of the column solved to each truth row, or -1. */
  function TruthTrackAssignment(sol: seq<nat>, nT: nat, trkIds: seq<int>): (a: seq<int>)
    requires |sol| == |trkIds|
    ensures |a| == nT
    ensures forall i :: 0 <= i < nT && i !in sol ==> a[i] == -1
    ensures forall i :: 0 <= i < nT && i in sol ==> exists j :: 0 <= j < |sol| && sol[j] == i && a[i] == trkIds[j]
  {
    seq(nT, i requires 0 <= i < nT => if i in sol then trkIds[IndexOf(sol, i)] else -1)
  }

  /** `trackTruthAssignment`: the truth of each column's solved row, or -1 for a synthetic row. */
  function TrackTruthAssignment(sol: seq<nat>, truthIds: seq<int>): (a: seq<int>)
    ensures |a| == |sol|
  {
    seq(|sol|, j requires 0 <= j < |sol| => if sol[j] < |truthIds| then truthIds[sol[j]] else -1)
  }

  /** Counting, solving and classification of one time step, given the valid truths and tracks. */
  function Associate(time: real, truthIds: seq<int>, truthPos: seq<Pos>, trkIds: seq<int>, trkPos: seq<Pos>,
                     sqrt: real -> real, sol: seq<nat>): (st: StepData)
    requires |truthIds| == |truthPos| && |trkIds| == |trkPos| && IsSqrt(sqrt)
    requires IsOptimal(BuildMatrix(truthPos, trkPos, sqrt), sol)
    ensures st.Shaped() && st.time == time && st.validTruthIds == truthIds && st.validTrkIds == trkIds
    ensures st.numAssignedTrks <= st.numAssociatedTrks <= |trkIds|
    ensures st.numAssignedTrks <= |truthIds|
  {
    var m := BuildMatrix(truthPos, trkPos, sqrt);
    StepCounts(m, |truthPos|, |trkPos|, sol);
    StepData(time, |AssociatedColumns(m, |truthPos|, |trkPos|)|, |AssignedRows(sol, |truthPos|)|, trkIds, truthIds,
             TruthTrackAssignment(sol, |truthPos|, trkIds), TrackTruthAssignment(sol, truthIds))
  }

  /** A track counts as associated exactly when some valid truth lies inside its gate. */
  lemma AssociatedMeansInGate(truthPos: seq<Pos>, trkPos: seq<Pos>, sqrt: real -> real)
    requires IsSqrt(sqrt)
    ensures AssociatedColumns(BuildMatrix(truthPos, trkPos, sqrt), |truthPos|, |trkPos|)
              == TracksNearSomeTruth(truthPos, trkPos)
  {
    var m := BuildMatrix(truthPos, trkPos, sqrt);
    forall j | j in TracksNearSomeTruth(truthPos, trkPos)
      ensures j in AssociatedColumns(m, |truthPos|, |trkPos|)
    {
      var i :| 0 <= i < |truthPos| && InGate(truthPos[i], trkPos[j]);
      assert m[i][j] < ImpossibleScore;
    }
  }

  /** What one step records: every recorded truth/track pair lies inside the gate; a track not put
      on a truth sits on its own synthetic row and records -1; a truth records the track whose
      column was solved to its row, and -1 when no column was. */
  lemma AssociateClassifies(time: real, truthIds: seq<int>, truthPos: seq<Pos>, trkIds: seq<int>, trkPos: seq<Pos>,
                            sqrt: real -> real, sol: seq<nat>)
    requires |truthIds| == |truthPos| && |trkIds| == |trkPos| && IsSqrt(sqrt)
    requires IsOptimal(BuildMatrix(truthPos, trkPos, sqrt), sol)
    ensures var st := Associate(time, truthIds, truthPos, trkIds, trkPos, sqrt, sol);
      && st.numAssociatedTrks == |TracksNearSomeTruth(truthPos, trkPos)|
      && (forall j :: 0 <= j < |trkIds| && sol[j] < |truthIds| ==> InGate(truthPos[sol[j]], trkPos[j]))
      && (forall j :: 0 <= j < |trkIds| ==>
            st.trackTruthAssignment[j] == (if sol[j] < |truthIds| then truthIds[sol[j]] else -1) &&
            (|truthIds| <= sol[j] ==> sol[j] == |truthIds| + j))
      && (forall i, j :: 0 <= i < |truthIds| && 0 <= j < |trkIds| && sol[j] == i ==>
            st.truthTrackAssignment[i] == trkIds[j])
      && (forall i :: 0 <= i < |truthIds| && i !in sol ==> st.truthTrackAssignment[i] == -1)
  {
    var m := BuildMatrix(truthPos, trkPos, sqrt);
    OptimalAvoidsImpossible(m, |truthPos|, |trkPos|, sol);
    AssociatedMeansInGate(truthPos, trkPos, sqrt);
    var st := Associate(time, truthIds, truthPos, trkIds, trkPos, sqrt, sol);
    forall i, j | 0 <= i < |truthIds| && 0 <= j < |trkIds| && sol[j] == i
      ensures st.truthTrackAssignment[i] == trkIds[j]
    {
      assert IndexOf(sol, i) == j;
    }
  }

  /** With non-negative track IDs, the truths that record a track are the truth rows the solver used. */
  lemma RecordingTruthsAreAssignedRows(sol: seq<nat>, nT: nat, trkIds: seq<int>)
    requires |sol| == |trkIds| && NoneNegative(trkIds)
    ensures (set i: nat | i < nT && TruthTrackAssignment(sol, nT, trkIds)[i] != -1) == AssignedRows(sol, nT)
  {
    var a := TruthTrackAssignment(sol, nT, trkIds);
    forall i: nat | i < nT && i in sol ensures a[i] != -1 {
      var j :| 0 <= j < |sol| && sol[j] == i && a[i] == trkIds[j];
    }
  }

  /** With non-negative truth IDs, the tracks that record a truth are the columns the solver put on
      a truth row. */
  lemma RecordingTracksAreAssignedColumns(sol: seq<nat>, truthIds: seq<int>)
    requires NoneNegative(truthIds)
    ensures (set j: nat | j < |sol| && TrackTruthAssignment(sol, truthIds)[j] != -1) == AssignedColumns(sol, |truthIds|)
  {
  }

  /** The assigned count of one step is the number of truth rows the solver gave a column, and
      equally the number of track columns it put on a truth row; with non-negative IDs, that is
      the number of truths that recorded a track and of tracks that recorded a truth. */
  lemma AssociateCounts(time: real, truthIds: seq<int>, truthPos: seq<Pos>, trkIds: seq<int>, trkPos: seq<Pos>,
                        sqrt: real -> real, sol: seq<nat>)
    requires |truthIds| == |truthPos| && |trkIds| == |trkPos| && IsSqrt(sqrt)
    requires IsOptimal(BuildMatrix(truthPos, trkPos, sqrt), sol)
    ensures var st := Associate(time, truthIds, truthPos, trkIds, trkPos, sqrt, sol);
      && st.numAssignedTrks == |AssignedRows(sol, |truthIds|)|
      && st.numAssignedTrks == |(set j: nat | j < |trkIds| && sol[j] < |truthIds|)|
      && (NoneNegative(truthIds) && NoneNegative(trkIds) ==> st.CountsAssigned())
  {
    var m := BuildMatrix(truthPos, trkPos, sqrt);
    StepCounts(m, |truthIds|, |trkIds|, sol);
    if NoneNegative(truthIds) && NoneNegative(trkIds) {
      RecordingTruthsAreAssignedRows(sol, |truthIds|, trkIds);
      RecordingTracksAreAssignedColumns(sol, truthIds);
    }
  }

  /** With distinct non-negative IDs the two directions of a step agree: truth `i` records track
      `j` exactly when track `j` records truth `i`. */
  lemma AssignmentsAgree(time: real, truthIds: seq<int>, truthPos: seq<Pos>, trkIds: seq<int>, trkPos: seq<Pos>,
                         sqrt: real -> real, sol: seq<nat>, i: nat, j: nat)
    requires |truthIds| == |truthPos| && |trkIds| == |trkPos| && IsSqrt(sqrt)
    requires IsOptimal(BuildMatrix(truthPos, trkPos, sqrt), sol)
    requires Distinct(truthIds) && Distinct(trkIds)
    requires forall k :: 0 <= k < |truthIds| ==> 0 <= truthIds[k]
    requires forall k :: 0 <= k < |trkIds| ==> 0 <= trkIds[k]
    requires i < |truthIds| && j < |trkIds|
    ensures var st := Associate(time, truthIds, truthPos, trkIds, trkPos, sqrt, sol);
            st.truthTrackAssignment[i] == trkIds[j] <==> st.trackTruthAssignment[j] == truthIds[i]
  {
    var st := Associate(time, truthIds, truthPos, trkIds, trkPos, sqrt, sol);
    AssociateClassifies(time, truthIds, truthPos, trkIds, trkPos, sqrt, sol);
    if st.truthTrackAssignment[i] == trkIds[j] {
      assert i in sol;
      var j' := IndexOf(sol, i);
      assert trkIds[j'] == trkIds[j];
    }
  }

  // ---------------------------------------------------------------- snapshots

  /** Every listed entity has a well-formed series in `data`. */
  ghost predicate Listed(data: map<int, Series>, timeField: string, ids: seq<int>) {
    forall id :: id in ids ==> id in data && SeriesValid(data[id], timeField)
  }

  /** The track loop over `ids`: every track with a record at `time`, in key order; a track with
      several records at `time` aborts with the duplicate-time error. */
  function TrackSnapshot(data: map<int, Series>, timeField: string, ids: seq<int>, time: real)
    : (r: Result<(seq<int>, seq<Record>), Error>)
    requires Listed(data, timeField, ids)
    ensures r.Failure? <==> exists id :: id in ids && Count(data[id][timeField], Some(time)) > 1
    ensures r.Success? ==> |r.value.0| == |r.value.1|
    ensures r.Success? ==> forall id :: id in r.value.0 <==> id in ids && Count(data[id][timeField], Some(time)) == 1
    ensures r.Success? && Distinct(ids) ==> Distinct(r.value.0)
  {
    if |ids| == 0 then Success(([], []))
    else
      var prefix := ids[..|ids| - 1];
      var id := ids[|ids| - 1];
      assert forall x :: x in ids <==> x in prefix || x == id;
      var snap :- TrackSnapshot(data, timeField, prefix, time);
      var rec :- IndividualDataAtTime(data[id], timeField, time);
      if rec.Some? then Success((snap.0 + [id], snap.1 + [rec.value])) else Success(snap)
  }

  /** The truth is present at `time`: its record there has a non-NaN `ID`. */
  predicate TruthValidAt(s: Series, timeField: string, time: real)
    requires SeriesValid(s, timeField)
  {
    var d := IndividualDataAtTime(s, timeField, time);
    d.Success? && d.value.Some? && "ID" in d.value.value && d.value.value["ID"].Some?
  }

  /** The record lookup of a truth succeeds: exactly one record at `time`, and it has an `ID` field. */
  predicate TruthRecordReadable(s: Series, timeField: string, time: real)
    requires SeriesValid(s, timeField)
  {
    var d := IndividualDataAtTime(s, timeField, time);
    d.Success? && d.value.Some? && "ID" in d.value.value
  }

  /** One truth of the truth loop: its record at `time` when its `ID` there is present, nothing
      when the `ID` is NaN, and an error when there is no single record or it lacks `ID`. */
  function TruthEntry(s: Series, timeField: string, id: int, time: real): (r: Result<Option<Record>, Error>)
    requires SeriesValid(s, timeField)
    ensures r.Failure? <==> !TruthRecordReadable(s, timeField, time)
    ensures r.Success? ==> (r.value.Some? <==> TruthValidAt(s, timeField, time))
    ensures r.Success? && r.value.Some? ==> IndividualDataAtTime(s, timeField, time) == Success(r.value)
    ensures r.Success? && r.value.Some? ==> "ID" in r.value.value && r.value.value["ID"].Some?
  {
    var rec :- IndividualDataAtTime(s, timeField, time);
    if rec.None? then Failure(MissingRecord(id, time))
    else if "ID" !in rec.value then Failure(MissingField("ID"))
    else if rec.value["ID"].Some? then Success(rec)
    else Success(None)
  }

  /** The truth loop over `ids`: every truth whose record at `time` has a non-NaN `ID`, in key
      order. The original expects every truth to have a record at every axis time; a lookup that
      fails aborts the run. */
  function TruthSnapshot(data: map<int, Series>, timeField: string, ids: seq<int>, time: real)
    : (r: Result<(seq<int>, seq<Record>), Error>)
    requires Listed(data, timeField, ids)
    ensures r.Failure? <==> exists id :: id in ids && !TruthRecordReadable(data[id], timeField, time)
    ensures r.Success? ==> |r.value.0| == |r.value.1|
    ensures r.Success? ==> forall id :: id in r.value.0 <==> id in ids && TruthValidAt(data[id], timeField, time)
    ensures r.Success? && Distinct(ids) ==> Distinct(r.value.0)
  {
    if |ids| == 0 then Success(([], []))
    else
      var prefix := ids[..|ids| - 1];
      var id := ids[|ids| - 1];
      assert forall x :: x in ids <==> x in prefix || x == id;
      var snap :- TruthSnapshot(data, timeField, prefix, time);
      var rec :- TruthEntry(data[id], timeField, id, time);
      if rec.Some? then Success((snap.0 + [id], snap.1 + [rec.value])) else Success(snap)
  }

  /** Position `k` of a track snapshot holds the one record of its track at `time`. */
  lemma {:induction false} TrackSnapshotRecordAt(data: map<int, Series>, timeField: string, ids: seq<int>,
                                                 time: real, k: nat)
    requires Listed(data, timeField, ids) && TrackSnapshot(data, timeField, ids, time).Success?
    requires k < |TrackSnapshot(data, timeField, ids, time).value.0|
    ensures var snap := TrackSnapshot(data, timeField, ids, time).value;
      && snap.0[k] in ids && snap.0[k] in data && SeriesValid(data[snap.0[k]], timeField)
      && IndividualDataAtTime(data[snap.0[k]], timeField, time) == Success(Some(snap.1[k]))
  {
    var prefix := ids[..|ids| - 1];
    var before := TrackSnapshot(data, timeField, prefix, time).value;
    if k < |before.0| {
      TrackSnapshotRecordAt(data, timeField, prefix, time, k);
    }
  }

  /** Position `k` of a truth snapshot holds the one record of its truth at `time`. */
  lemma {:induction false} TruthSnapshotRecordAt(data: map<int, Series>, timeField: string, ids: seq<int>,
                                                 time: real, k: nat)
    requires Listed(data, timeField, ids) && TruthSnapshot(data, timeField, ids, time).Success?
    requires k < |TruthSnapshot(data, timeField, ids, time).value.0|
    ensures var snap := TruthSnapshot(data, timeField, ids, time).value;
      && snap.0[k] in ids && snap.0[k] in data && SeriesValid(data[snap.0[k]], timeField)
      && IndividualDataAtTime(data[snap.0[k]], timeField, time) == Success(Some(snap.1[k]))
  {
    var prefix := ids[..|ids| - 1];
    var before := TruthSnapshot(data, timeField, prefix, time).value;
    if k < |before.0| {
      TruthSnapshotRecordAt(data, timeField, prefix, time, k);
    }
  }

  /** The coordinates of a record; a field the record lacks reads as missing. */
  function PosOf(rec: Record): Pos {
    Pos(if "X" in rec then rec["X"] else None, if "Y" in rec then rec["Y"] else None)
  }

  predicate HasField(recs: seq<Record>, f: string) {
    forall k :: 0 <= k < |recs| ==> f in recs[k]
  }

  // ---------------------------------------------------------------- one time step

  /** Scoring and solving of one snapshot pair; a missing coordinate field fails only when there
      is a pair to score. */
  function Score(time: real, tru: (seq<int>, seq<Record>), trk: (seq<int>, seq<Record>), sqrt: real -> real,
                 solve: Matrix -> seq<nat>): (r: Result<StepData, Error>)
    requires |tru.0| == |tru.1| && |trk.0| == |trk.1| && IsSqrt(sqrt) && IsSolver(solve)
    ensures r.Success? ==> r.value.Shaped() && r.value.time == time
    ensures r.Success? ==> r.value.validTruthIds == tru.0 && r.value.validTrkIds == trk.0
    ensures r.Success? ==> r.value.numAssignedTrks <= r.value.numAssociatedTrks <= |trk.0|
    ensures r.Success? ==> r.value.numAssignedTrks <= |tru.0|
    ensures r.Failure? <==> (|tru.1| > 0 && |trk.1| > 0 &&
              !(HasField(tru.1, "X") && HasField(trk.1, "X") && HasField(tru.1, "Y") && HasField(trk.1, "Y")))
    ensures r.Success? && NoneNegative(tru.0) && NoneNegative(trk.0) ==> r.value.CountsAssigned()
  {
    if |tru.1| > 0 && |trk.1| > 0 && !(HasField(tru.1, "X") && HasField(trk.1, "X") &&
                                      HasField(tru.1, "Y") && HasField(trk.1, "Y")) then
      Failure(MissingField(if HasField(tru.1, "X") && HasField(trk.1, "X") then "Y" else "X"))
    else
      var truthPos := seq(|tru.1|, k requires 0 <= k < |tru.1| => PosOf(tru.1[k]));
      var trkPos := seq(|trk.1|, k requires 0 <= k < |trk.1| => PosOf(trk.1[k]));
      var m := BuildMatrix(truthPos, trkPos, sqrt);
      GatedIsSolvable(m, |truthPos|, |trkPos|);
      AssociateCounts(time, tru.0, truthPos, trk.0, trkPos, sqrt, solve(m));
      Success(Associate(time, tru.0, truthPos, trk.0, trkPos, sqrt, solve(m)))
  }

  /** One iteration of the time loop of `assignTracksToTruth`: the track snapshot, the truth
      snapshot, then scoring and solving. */
  function Step(time: real, tracks: Manager, truths: Manager, sqrt: real -> real,
                solve: Matrix -> seq<nat>): (r: Result<StepData, Error>)
    requires tracks.Valid() && truths.Valid() && IsSqrt(sqrt) && IsSolver(solve)
    ensures (exists id :: id in tracks.ids && Count(tracks.idMapData[id][tracks.timeField], Some(time)) > 1)
              ==> r.Failure?
    ensures r.Success? ==> StepInvariant(r.value, tracks, truths) && r.value.time == time
  {
    var trk :- TrackSnapshot(tracks.idMapData, tracks.timeField, tracks.ids, time);
    var tru :- TruthSnapshot(truths.idMapData, truths.timeField, truths.ids, time);
    assert NoneNegative(trk.0) && NoneNegative(tru.0) by {
      forall k | 0 <= k < |trk.0| ensures 0 <= trk.0[k] { assert trk.0[k] in tracks.ids; }
      forall k | 0 <= k < |tru.0| ensures 0 <= tru.0[k] { assert tru.0[k] in truths.ids; }
    }
    Score(time, tru, trk, sqrt, solve)
  }

  /** The facts every recorded step keeps: the count bounds, the assigned count matching both
      assignment arrays, distinct valid IDs, no track with several records at its time (such a
      track aborts the run), and which tracks and truths are valid at its time. */
  ghost predicate StepInvariant(st: StepData, tracks: Manager, truths: Manager)
    requires tracks.Valid() && truths.Valid()
  {
    && st.Shaped()
    && st.CountsAssigned()
    && st.numAssignedTrks <= st.numAssociatedTrks <= |st.validTrkIds|
    && st.numAssignedTrks <= |st.validTruthIds|
    && Distinct(st.validTruthIds) && Distinct(st.validTrkIds)
    && (forall id :: id in tracks.ids ==> Count(tracks.idMapData[id][tracks.timeField], Some(st.time)) <= 1)
    && (forall id :: id in st.validTrkIds <==>
          id in tracks.ids && Count(tracks.idMapData[id][tracks.timeField], Some(st.time)) == 1)
    && (forall id :: id in st.validTruthIds <==>
          id in truths.ids && TruthValidAt(truths.idMapData[id], truths.timeField, st.time))
  }

  // ---------------------------------------------------------------- histories

  /** Which side of the association a history belongs to. */
  datatype Side = Truths | Tracks

  function ValidIds(st: StepData, side: Side): seq<int> {
    if side == Truths then st.validTruthIds else st.validTrkIds
  }

  function Counterparts(st: StepData, side: Side): seq<int> {
    if side == Truths then st.truthTrackAssignment else st.trackTruthAssignment
  }

  predicate AllShaped(steps: seq<StepData>) {
    forall k :: 0 <= k < |steps| ==> steps[k].Shaped()
  }

  /** The reference history of entity `id`: its time and counterpart at every step where it is
      valid, in step order. */
  function HistoryOf(steps: seq<StepData>, side: Side, id: int): History
    requires AllShaped(steps)
  {
    if |steps| == 0 then History([], [])
    else
      var h := HistoryOf(steps[..|steps| - 1], side, id);
      var st := steps[|steps| - 1];
      if id in ValidIds(st, side) then
        History(h.times + [st.time], h.ids + [Counterparts(st, side)[IndexOf(ValidIds(st, side), id)]])
      else h
  }

  /** The appends of one step: every valid entity gets its `(time, counterpart)` pair, the others
      nothing. */
  function AppendAll(hs: map<int, History>, st: StepData, side: Side): (r: map<int, History>)
    requires st.Shaped()
    ensures r.Keys == hs.Keys
  {
    map id | id in hs ::
      if id in ValidIds(st, side) then
        History(hs[id].times + [st.time], hs[id].ids + [Counterparts(st, side)[IndexOf(ValidIds(st, side), id)]])
      else hs[id]
  }

  /** `initData`: an empty history for every known entity. */
  function InitData(tracks: Manager, truths: Manager): (a: Analysis)
    ensures a.allTimeData == []
    ensures a.truthAssignments.Keys == truths.idMapData.Keys && a.trackAssignments.Keys == tracks.idMapData.Keys
    ensures forall id :: id in a.truthAssignments ==> a.truthAssignments[id] == HistoryOf([], Truths, id)
    ensures forall id :: id in a.trackAssignments ==> a.trackAssignments[id] == HistoryOf([], Tracks, id)
  {
    Analysis([], map id | id in truths.idMapData :: History([], []),
                 map id | id in tracks.idMapData :: History([], []))
  }

  /** Appending one step to histories that match the reference gives the reference of the longer
      step sequence. */
  lemma AppendAllExtendsHistory(hs: map<int, History>, steps: seq<StepData>, st: StepData, side: Side)
    requires AllShaped(steps) && st.Shaped()
    requires forall id :: id in hs ==> hs[id] == HistoryOf(steps, side, id)
    ensures AllShaped(steps + [st])
    ensures forall id :: id in hs ==> AppendAll(hs, st, side)[id] == HistoryOf(steps + [st], side, id)
  {
    assert (steps + [st])[..|steps|] == steps;
  }

  /** What a run over `axis` has recorded: one step per axis time, in order, each keeping the step
      invariant, and for every known truth and track the history the steps determine. */
  ghost predicate RunInvariant(a: Analysis, tracks: Manager, truths: Manager, axis: seq<real>)
    requires tracks.Valid() && truths.Valid()
  {
    && |a.allTimeData| == |axis|
    && (forall k :: 0 <= k < |axis| ==>
          a.allTimeData[k].time == axis[k] && StepInvariant(a.allTimeData[k], tracks, truths))
    && AllShaped(a.allTimeData)
    && a.truthAssignments.Keys == truths.idMapData.Keys
    && a.trackAssignments.Keys == tracks.idMapData.Keys
    && (forall id :: id in a.truthAssignments ==> a.truthAssignments[id] == HistoryOf(a.allTimeData, Truths, id))
    && (forall id :: id in a.trackAssignments ==> a.trackAssignments[id] == HistoryOf(a.allTimeData, Tracks, id))
  }

  /** The recording of one more step: the step is appended, no entity is added or dropped, and
      exactly the entities valid at the step get one more history entry. */
  function Record(a: Analysis, st: StepData): (r: Analysis)
    requires st.Shaped()
    ensures r.allTimeData == a.allTimeData + [st]
    ensures r.truthAssignments.Keys == a.truthAssignments.Keys && r.trackAssignments.Keys == a.trackAssignments.Keys
    ensures forall id :: id in a.truthAssignments ==>
              |r.truthAssignments[id].times| == |a.truthAssignments[id].times| + (if id in st.validTruthIds then 1 else 0)
    ensures forall id :: id in a.trackAssignments ==>
              |r.trackAssignments[id].times| == |a.trackAssignments[id].times| + (if id in st.validTrkIds then 1 else 0)
  {
    Analysis(a.allTimeData + [st], AppendAll(a.truthAssignments, st, Truths),
             AppendAll(a.trackAssignments, st, Tracks))
  }

  /** Recording a step taken at the next axis time keeps the run invariant. */
  lemma RecordKeepsRunInvariant(a: Analysis, st: StepData, tracks: Manager, truths: Manager, axis: seq<real>)
    requires tracks.Valid() && truths.Valid()
    requires |axis| > 0 && RunInvariant(a, tracks, truths, axis[..|axis| - 1])
    requires StepInvariant(st, tracks, truths) && st.time == axis[|axis| - 1]
    ensures RunInvariant(Record(a, st), tracks, truths, axis)
  {
    AppendAllExtendsHistory(a.truthAssignments, a.allTimeData, st, Truths);
    AppendAllExtendsHistory(a.trackAssignments, a.allTimeData, st, Tracks);
    assert axis[..|axis| - 1] + [axis[|axis| - 1]] == axis;
  }

  /** The empty run: no steps and an empty history for every known entity. */
  lemma InitDataStartsRun(tracks: Manager, truths: Manager)
    requires tracks.Valid() && truths.Valid()
    ensures RunInvariant(InitData(tracks, truths), tracks, truths, [])
  {
  }

  /** One pass of the time loop: after a run over all but the last time of `axis`, the step at
      that last time is recorded. */
  function Advance(a: Analysis, tracks: Manager, truths: Manager, sqrt: real -> real,
                   solve: Matrix -> seq<nat>, axis: seq<real>): (r: Result<Analysis, Error>)
    requires tracks.Valid() && truths.Valid() && IsSqrt(sqrt) && IsSolver(solve)
    requires |axis| > 0 && RunInvariant(a, tracks, truths, axis[..|axis| - 1])
    ensures r.Success? ==> RunInvariant(r.value, tracks, truths, axis)
  {
    var step := Step(axis[|axis| - 1], tracks, truths, sqrt, solve);
    if step.Failure? then Failure(step.error)
    else
      RecordKeepsRunInvariant(a, step.value, tracks, truths, axis);
      Success(Record(a, step.value))
  }

  /** The time loop over `axis`. */
  function Process(tracks: Manager, truths: Manager, axis: seq<real>, sqrt: real -> real,
                   solve: Matrix -> seq<nat>): (r: Result<Analysis, Error>)
    requires tracks.Valid() && truths.Valid() && IsSqrt(sqrt) && IsSolver(solve)
    ensures r.Success? ==> RunInvariant(r.value, tracks, truths, axis)
    decreases |axis|
  {
    if |axis| == 0 then
      InitDataStartsRun(tracks, truths);
      Success(InitData(tracks, truths))
    else
      var run := Process(tracks, truths, axis[..|axis| - 1], sqrt, solve);
      if run.Failure? then run else Advance(run.value, tracks, truths, sqrt, solve, axis)
  }

  /** Step `st` records counterpart `c` for entity `id` at time `t`. */
  predicate RecordedAt(st: StepData, side: Side, id: int, t: real, c: int)
    requires st.Shaped()
  {
    id in ValidIds(st, side) && st.time == t && c == Counterparts(st, side)[IndexOf(ValidIds(st, side), id)]
  }

  /** A history's time and counterpart lists are equally long. */
  lemma {:induction false} HistoryLengths(steps: seq<StepData>, side: Side, id: int)
    requires AllShaped(steps)
    ensures |HistoryOf(steps, side, id).times| == |HistoryOf(steps, side, id).ids|
  {
    if |steps| > 0 {
      var prefix := steps[..|steps| - 1];
      assert AllShaped(prefix);
      HistoryLengths(prefix, side, id);
    }
  }

  /** Entry `p` of a history is the record of some step: the witness step `k`. */
  lemma {:induction false} HistoryEntryAt(steps: seq<StepData>, side: Side, id: int, p: nat) returns (k: nat)
    requires AllShaped(steps)
    requires p < |HistoryOf(steps, side, id).times|
    ensures p < |HistoryOf(steps, side, id).ids| && k < |steps|
    ensures RecordedAt(steps[k], side, id, HistoryOf(steps, side, id).times[p], HistoryOf(steps, side, id).ids[p])
  {
    HistoryLengths(steps, side, id);
    var prefix := steps[..|steps| - 1];
    assert AllShaped(prefix);
    HistoryLengths(prefix, side, id);
    if p < |HistoryOf(prefix, side, id).times| {
      k := HistoryEntryAt(prefix, side, id, p);
      assert prefix[k] == steps[k];
    } else {
      k := |steps| - 1;
    }
  }

  /** Every step where the entity is valid contributes its time to the history. */
  lemma {:induction false} ValidStepInHistory(steps: seq<StepData>, side: Side, id: int, k: nat)
    requires AllShaped(steps)
    requires k < |steps| && id in ValidIds(steps[k], side)
    ensures steps[k].time in HistoryOf(steps, side, id).times
  {
    var prefix := steps[..|steps| - 1];
    assert AllShaped(prefix);
    if k < |prefix| {
      assert prefix[k] == steps[k];
      ValidStepInHistory(prefix, side, id, k);
    }
  }

  /** A history's times strictly increase when the step times do. */
  lemma {:induction false} HistoryTimesIncrease(steps: seq<StepData>, side: Side, id: int)
    requires AllShaped(steps)
    requires forall k, l :: 0 <= k < l < |steps| ==> steps[k].time < steps[l].time
    ensures StrictlyIncreasing(HistoryOf(steps, side, id).times)
  {
    if |steps| > 0 {
      var prefix := steps[..|steps| - 1];
      assert AllShaped(prefix);
      HistoryTimesIncrease(prefix, side, id);
      var g := HistoryOf(prefix, side, id);
      forall p | 0 <= p < |g.times| ensures g.times[p] < steps[|steps| - 1].time {
        var k := HistoryEntryAt(prefix, side, id, p);
        assert prefix[k] == steps[k];
      }
    }
  }

  /** Entity `id` of `side` is valid at time `t`: a track with exactly one record there, a truth
      whose record there has a present `ID`. */
  ghost predicate ValidAtTime(tracks: Manager, truths: Manager, side: Side, id: int, t: real)
    requires tracks.Valid() && truths.Valid()
  {
    if side == Tracks then id in tracks.ids && Count(tracks.idMapData[id][tracks.timeField], Some(t)) == 1
    else id in truths.ids && TruthValidAt(truths.idMapData[id], truths.timeField, t)
  }

  /** The histories of one side of an analysis. */
  function Histories(a: Analysis, side: Side): map<int, History> {
    if side == Truths then a.truthAssignments else a.trackAssignments
  }

  /** After a successful run over a strictly increasing axis, the history of every known entity
      has equally long lists, strictly increasing times, and holds exactly the axis times at which
      the entity is valid. */
  lemma ProcessHistory(tracks: Manager, truths: Manager, axis: seq<real>, sqrt: real -> real,
                       solve: Matrix -> seq<nat>, side: Side, id: int)
    requires tracks.Valid() && truths.Valid() && IsSqrt(sqrt) && IsSolver(solve)
    requires StrictlyIncreasing(axis) && Process(tracks, truths, axis, sqrt, solve).Success?
    requires id in (if side == Truths then truths.idMapData else tracks.idMapData)
    ensures var a := Process(tracks, truths, axis, sqrt, solve).value;
      && id in Histories(a, side)
      && |Histories(a, side)[id].times| == |Histories(a, side)[id].ids|
      && StrictlyIncreasing(Histories(a, side)[id].times)
      && forall t :: t in Histories(a, side)[id].times <==>
           t in axis && ValidAtTime(tracks, truths, side, id, t)
  {
    var a := Process(tracks, truths, axis, sqrt, solve).value;
    var steps := a.allTimeData;
    var h := HistoryOf(steps, side, id);
    assert Histories(a, side)[id] == h;
    HistoryLengths(steps, side, id);
    HistoryTimesIncrease(steps, side, id);
    forall t | t in h.times ensures t in axis && ValidAtTime(tracks, truths, side, id, t) {
      var p :| 0 <= p < |h.times| && h.times[p] == t;
      var k := HistoryEntryAt(steps, side, id, p);
      assert StepInvariant(steps[k], tracks, truths) && steps[k].time == axis[k];
    }
    forall t | t in axis && ValidAtTime(tracks, truths, side, id, t) ensures t in h.times {
      var k :| 0 <= k < |axis| && axis[k] == t;
      assert StepInvariant(steps[k], tracks, truths) && steps[k].time == axis[k];
      assert id in ValidIds(steps[k], side);
      ValidStepInHistory(steps, side, id, k);
    }
  }

  /** `assignTracksToTruth`: the truths are resampled onto the track time axis, then every axis
      time is processed in order. */
  function AssignTracksToTruth(tracks: Manager, truths: Manager, sqrt: real -> real,
                               solve: Matrix -> seq<nat>): (r: Result<Analysis, Error>)
    requires tracks.Valid() && truths.Valid() && truths.Raw() && IsSqrt(sqrt) && IsSolver(solve)
    ensures r.Success? ==> |r.value.allTimeData| == |tracks.uniqueTimes|
    ensures r.Success? ==> forall k :: 0 <= k < |tracks.uniqueTimes| ==>
              r.value.allTimeData[k].time == tracks.uniqueTimes[k]
    ensures r.Success? ==> forall k :: 0 <= k < |tracks.uniqueTimes| ==>
              var st := r.value.allTimeData[k];
              && st.numAssignedTrks <= st.numAssociatedTrks <= |st.validTrkIds| && st.numAssignedTrks <= |st.validTruthIds|
              && st.Shaped() && st.CountsAssigned()
    ensures r.Success? ==> r.value.truthAssignments.Keys == truths.idMapData.Keys
    ensures r.Success? ==> r.value.trackAssignments.Keys == tracks.idMapData.Keys
  {
    Process(tracks, Interpolate(truths, tracks.uniqueTimes), tracks.uniqueTimes, sqrt, solve)
  }

  /** After resampling onto a sorted axis, a truth with an `ID` field is valid at an axis time
      exactly when that time lies inside its original time span. */
  lemma ResampledTruthValidAt(truths: Manager, axis: seq<real>, id: int, k: nat)
    requires truths.Valid() && truths.Raw() && StrictlyIncreasing(axis) && k < |axis|
    requires id in truths.idMapData && "ID" in truths.idMapData[id] && "ID" != truths.timeField
    ensures TruthValidAt(Interpolate(truths, axis).idMapData[id], truths.timeField, axis[k]) <==>
              FirstTime(truths.idMapData[id], truths.timeField) <= axis[k] <= LastTime(truths.idMapData[id], truths.timeField)
  {
    var s := truths.idMapData[id];
    assert Interpolate(truths, axis).idMapData[id] == Resample(s, truths.timeField, axis);
    ResampledRecordAtAxisTime(s, truths.timeField, axis, k);
  }

  /** A truth with an `ID` field is valid at exactly the track axis times inside its own original
      time span: resampling leaves its `ID` missing before its first and after its last time. */
  lemma TruthHistoryFollowsSpan(tracks: Manager, truths: Manager, sqrt: real -> real, solve: Matrix -> seq<nat>,
                                id: int)
    requires tracks.Valid() && truths.Valid() && truths.Raw() && IsSqrt(sqrt) && IsSolver(solve)
    requires id in truths.idMapData && "ID" in truths.idMapData[id] && "ID" != truths.timeField
    ensures AssignTracksToTruth(tracks, truths, sqrt, solve).Success? ==>
      var h := AssignTracksToTruth(tracks, truths, sqrt, solve).value.truthAssignments[id];
      && |h.times| == |h.ids| && StrictlyIncreasing(h.times)
      && forall t :: t in h.times <==> (t in tracks.uniqueTimes &&
           FirstTime(truths.idMapData[id], truths.timeField) <= t <= LastTime(truths.idMapData[id], truths.timeField))
  {
    if AssignTracksToTruth(tracks, truths, sqrt, solve).Success? {
      var axis := tracks.uniqueTimes;
      var resampled := Interpolate(truths, axis);
      var first := FirstTime(truths.idMapData[id], truths.timeField);
      var last := LastTime(truths.idMapData[id], truths.timeField);
      assert AssignTracksToTruth(tracks, truths, sqrt, solve) == Process(tracks, resampled, axis, sqrt, solve);
      ProcessHistory(tracks, resampled, axis, sqrt, solve, Truths, id);
      ResampledTruthValidOnAxis(tracks, truths, id);
    }
  }

  /** At every track axis time, a resampled truth with an `ID` field is valid exactly inside its
      original time span. */
  lemma ResampledTruthValidOnAxis(tracks: Manager, truths: Manager, id: int)
    requires tracks.Valid() && truths.Valid() && truths.Raw()
    requires id in truths.idMapData && "ID" in truths.idMapData[id] && "ID" != truths.timeField
    ensures forall t :: t in tracks.uniqueTimes ==>
      (ValidAtTime(tracks, Interpolate(truths, tracks.uniqueTimes), Truths, id, t) <==>
         FirstTime(truths.idMapData[id], truths.timeField) <= t <= LastTime(truths.idMapData[id], truths.timeField))
  {
    var axis := tracks.uniqueTimes;
    forall t | t in axis
      ensures ValidAtTime(tracks, Interpolate(truths, axis), Truths, id, t) <==>
                FirstTime(truths.idMapData[id], truths.timeField) <= t <= LastTime(truths.idMapData[id], truths.timeField)
    {
      var k :| 0 <= k < |axis| && axis[k] == t;
      ResampledTruthValidAt(truths, axis, id, k);
    }
  }
}
