/** The per-entity time-series store of one data file: choosing the time field, grouping rows by
    entity ID, the sorted time axis, the record of an entity at one time, and resampling an entity
    onto a time axis with missing values outside its original time span. */
module DataManager {
  import opened Wrappers
  import opened Errors
  import opened Seqs

  /** One value of a column; `None` is NaN. */
  type Cell = Option<real>

  /** One entity's data: field name to column, every column one entry per row, rows in file order. */
  type Series = map<string, seq<Cell>>

  /** The field values of one row of a series. */
  type Record = map<string, Cell>

  /** A parsed whitespace-delimited file: field names in header order and one column per field. */
  datatype Table = Table(fields: seq<string>, columns: map<string, seq<real>>, numRows: nat) {
    ghost predicate WellFormed() {
      && (forall f :: f in columns <==> f in fields)
      && (forall f :: f in columns ==> |columns[f]| == numRows)
    }
  }

  /** The loaded state of one file. `ids` lists the keys of `idMapData` in insertion order, which is
      the order in which a Python 3.7+ dictionary is iterated; the engine's loops follow it. */
  datatype Manager = Manager(timeField: string, uniqueTimes: seq<real>, ids: seq<int>,
                             idMapData: map<int, Series>)
  {
    ghost predicate Valid() {
      && StrictlyIncreasing(uniqueTimes)
      && Distinct(ids) && NoneNegative(ids)
      && (forall id :: id in idMapData <==> id in ids)
      && (forall id :: id in idMapData ==> SeriesValid(idMapData[id], timeField))
    }

    /** Every entity has at least one row and every cell holds a number, as after loading a file. */
    predicate Raw() {
      forall id :: id in idMapData ==> RawSeries(idMapData[id], timeField)
    }
  }

  /** The time field is present and all columns have one entry per row. */
  predicate SeriesValid(s: Series, timeField: string) {
    && timeField in s
    && forall f :: f in s ==> |s[f]| == |s[timeField]|
  }

  predicate AllPresent(c: seq<Cell>) {
    forall k :: 0 <= k < |c| ==> c[k].Some?
  }

  predicate RawSeries(s: Series, timeField: string) {
    && timeField in s
    && |s[timeField]| > 0
    && forall f :: f in s ==> AllPresent(s[f])
  }

  /** The numbers of a column without missing cells. */
  function Values(c: seq<Cell>): (v: seq<real>)
    requires AllPresent(c)
    ensures |v| == |c| && forall k :: 0 <= k < |c| ==> c[k] == Some(v[k])
  {
    seq(|c|, k requires 0 <= k < |c| => c[k].value)
  }

  // ---------------------------------------------------------------- construction

  /** The time field: `T` when the file has it, otherwise `TIME`, otherwise an error naming the fields. */
  function TimeField(fields: seq<string>): (r: Result<string, Error>)
    ensures r.Success? <==> "T" in fields || "TIME" in fields
    ensures r.Success? ==> r.value in fields && (r.value == "T" || r.value == "TIME")
    ensures r.Success? && r.value == "TIME" ==> "T" !in fields
    ensures r.Failure? ==> r.error == UnknownTimeField(fields)
  {
    if "T" in fields then Success("T")
    else if "TIME" in fields then Success("TIME")
    else Failure(UnknownTimeField(fields))
  }

  /** The values of `col` at the rows `idx`. */
  function Pick(col: seq<real>, idx: seq<nat>): (c: seq<Cell>)
    requires forall k :: 0 <= k < |idx| ==> idx[k] < |col|
    ensures |c| == |idx| && AllPresent(c)
  {
    seq(|idx|, k requires 0 <= k < |idx| => Some(col[idx[k]]))
  }

  /** The series of the entity whose ID cell equals `uid`: every field restricted to its rows. */
  function EntitySeries(t: Table, uid: real): (s: Series)
    requires t.WellFormed() && "ID" in t.columns
    ensures s.Keys == t.columns.Keys
    ensures forall f :: f in s ==> |s[f]| == |Where(t.columns["ID"], uid)| == Count(t.columns["ID"], uid)
    ensures forall f, p :: f in s && 0 <= p < |Where(t.columns["ID"], uid)| ==>
              s[f][p] == Some(t.columns[f][Where(t.columns["ID"], uid)[p]])
    ensures forall p :: 0 <= p < |s["ID"]| ==> s["ID"][p] == Some(uid)
  {
    var idx := Where(t.columns["ID"], uid);
    WhereCountsOccurrences(t.columns["ID"], uid);
    map f | f in t.columns :: Pick(t.columns[f], idx)
  }

  /** The grouping loop over the sorted distinct IDs `uids`: negative IDs are heartbeats and are
      skipped; an ID is stored under its integer part, so a later ID with the same integer part
      replaces the earlier entry but keeps its place in the key order. */
  function Group(t: Table, uids: seq<real>): (g: (seq<int>, map<int, Series>))
    requires t.WellFormed() && "ID" in t.columns
    ensures Distinct(g.0) && (forall k :: k in g.1 <==> k in g.0)
    ensures forall k :: k in g.1 ==> 0 <= k
    ensures NoneNegative(g.0)
  {
    if |uids| == 0 then ([], map[])
    else
      var g' := Group(t, uids[..|uids| - 1]);
      var uid := uids[|uids| - 1];
      if uid < 0.0 then g'
      else
        var k := uid.Floor;
        (if k in g'.1 then g'.0 else g'.0 + [k], g'.1[k := EntitySeries(t, uid)])
  }

  /** Every key of the grouping comes from a non-negative ID whose rows it holds, and every
      non-negative ID has a key. */
  lemma {:induction false} GroupEntries(t: Table, uids: seq<real>)
    requires t.WellFormed() && "ID" in t.columns
    ensures forall k :: k in Group(t, uids).1 ==>
              exists u :: u in uids && 0.0 <= u && u.Floor == k && Group(t, uids).1[k] == EntitySeries(t, u)
    ensures forall u :: u in uids && 0.0 <= u ==> u.Floor in Group(t, uids).1
  {
    if |uids| != 0 {
      var prefix := uids[..|uids| - 1];
      GroupEntries(t, prefix);
      assert forall u :: u in uids <==> u in prefix || u == uids[|uids| - 1];
    }
  }

  /** An ID that shares its integer part with no other ID is stored with exactly its own rows. */
  lemma {:induction false} GroupStoresLoneId(t: Table, uids: seq<real>, u: real)
    requires t.WellFormed() && "ID" in t.columns
    requires u in uids && 0.0 <= u
    requires forall v :: v in uids && 0.0 <= v && v.Floor == u.Floor ==> v == u
    ensures u.Floor in Group(t, uids).1 && Group(t, uids).1[u.Floor] == EntitySeries(t, u)
  {
    var prefix := uids[..|uids| - 1];
    var last := uids[|uids| - 1];
    assert forall v :: v in uids <==> v in prefix || v == last;
    if last != u {
      GroupStoresLoneId(t, prefix, u);
      assert last < 0.0 || last.Floor != u.Floor;
    }
  }

  /** Every grouped entity has at least one row and only numbers. */
  lemma GroupIsRaw(t: Table, tf: string)
    requires t.WellFormed() && "ID" in t.columns && tf in t.columns
    ensures forall k :: k in Group(t, Unique(t.columns["ID"])).1 ==>
              RawSeries(Group(t, Unique(t.columns["ID"])).1[k], tf) &&
              SeriesValid(Group(t, Unique(t.columns["ID"])).1[k], tf) &&
              Group(t, Unique(t.columns["ID"])).1[k].Keys == t.columns.Keys
  {
    var uids := Unique(t.columns["ID"]);
    var data := Group(t, uids).1;
    GroupEntries(t, uids);
    forall k | k in data
      ensures RawSeries(data[k], tf) && SeriesValid(data[k], tf) && data[k].Keys == t.columns.Keys
    {
      var u :| u in uids && 0.0 <= u && u.Floor == k && data[k] == EntitySeries(t, u);
      assert u in t.columns["ID"];
    }
  }

  /** Reads a table into a manager. With `hasId` the rows are grouped by their `ID` column; without
      it the single entity 0 holds an empty record, as the original does. */
  function Load(t: Table, hasId: bool): (r: Result<Manager, Error>)
    requires t.WellFormed()
    ensures r.Success? <==> TimeField(t.fields).Success? && (hasId ==> "ID" in t.columns)
    ensures r.Failure? && TimeField(t.fields).Success? ==> r.error == MissingField("ID")
    ensures r.Success? ==> r.value.timeField in t.columns
    ensures r.Success? ==> StrictlyIncreasing(r.value.uniqueTimes)
    ensures r.Success? ==> forall x :: x in r.value.uniqueTimes <==> x in t.columns[r.value.timeField]
    ensures r.Success? && hasId ==> r.value.Valid() && r.value.Raw()
    ensures r.Success? && hasId ==> forall k :: k in r.value.idMapData ==> 0 <= k
    ensures r.Success? && hasId ==> forall k :: k in r.value.idMapData ==> r.value.idMapData[k].Keys == t.columns.Keys
  {
    var tf :- TimeField(t.fields);
    var uniqueTimes := Unique(t.columns[tf]);
    if !hasId then
      Success(Manager(tf, uniqueTimes, [0], map[0 := map[]]))
    else if "ID" !in t.columns then
      Failure(MissingField("ID"))
    else
      GroupIsRaw(t, tf);
      var (ids, data) := Group(t, Unique(t.columns["ID"]));
      Success(Manager(tf, uniqueTimes, ids, data))
  }

  /** When every ID is a whole number, an ID is a key exactly when it is non-negative and some row
      carries it, and its entry is exactly that entity's rows. */
  lemma LoadGroupsByWholeIds(t: Table)
    requires t.WellFormed() && "ID" in t.columns
    requires forall i :: 0 <= i < t.numRows ==> t.columns["ID"][i] == t.columns["ID"][i].Floor as real
    requires Load(t, true).Success?
    ensures forall k: int :: k in Load(t, true).value.idMapData <==> 0 <= k && (k as real) in t.columns["ID"]
    ensures forall k :: k in Load(t, true).value.idMapData ==>
              Load(t, true).value.idMapData[k] == EntitySeries(t, k as real)
  {
    var col := t.columns["ID"];
    var uids := Unique(col);
    var data := Group(t, uids).1;
    assert Load(t, true).value.idMapData == data;
    GroupEntries(t, uids);
    forall u | u in uids ensures u == u.Floor as real {
      var i :| 0 <= i < |col| && col[i] == u;
    }
    forall k: int | 0 <= k && (k as real) in col ensures k in data {
      assert (k as real) in uids && (k as real).Floor == k;
    }
    forall k | k in data ensures (k as real) in col && data[k] == EntitySeries(t, k as real) {
      var u :| u in uids && 0.0 <= u && u.Floor == k && data[k] == EntitySeries(t, u);
      assert u == k as real;
    }
  }

  // ---------------------------------------------------------------- queries

  /** The fields of row `i`. */
  function RowAt(data: Series, i: nat): (rec: Record)
    requires forall f :: f in data ==> i < |data[f]|
    ensures rec.Keys == data.Keys && forall f :: f in rec ==> rec[f] == data[f][i]
  {
    map f | f in data :: data[f][i]
  }

  /** The record of an entity at `time`: nothing when no row has that time, the one matching row,
      or a duplicate-time error naming the entity's ID and the time when several rows match. */
  function IndividualDataAtTime(data: Series, timeField: string, time: real): (r: Result<Option<Record>, Error>)
    requires SeriesValid(data, timeField)
    ensures r == Success(None) <==> Count(data[timeField], Some(time)) == 0
    ensures r.Success? && r.value.Some? <==> Count(data[timeField], Some(time)) == 1
    ensures r.Failure? <==> Count(data[timeField], Some(time)) > 1
    ensures r.Failure? ==> r.error.DuplicateTime? && r.error.time == time
    ensures r.Success? && r.value.Some? ==>
              exists i :: 0 <= i < |data[timeField]| && data[timeField][i] == Some(time) &&
                          r.value.value == RowAt(data, i)
  {
    var idx := Where(data[timeField], Some(time));
    WhereCountsOccurrences(data[timeField], Some(time));
    if |idx| == 0 then Success(None)
    else if |idx| == 1 then Success(Some(RowAt(data, idx[0])))
    else
      var id := if "ID" in data && data["ID"][idx[0]].Some? then Some(data["ID"][idx[0]].value) else None;
      Failure(DuplicateTime(id, time))
  }

  // ---------------------------------------------------------------- resampling

  /** The segment `[xp[k], xp[k+1])` holding `x`, searched from `j` upward. */
  function Segment(x: real, xp: seq<real>, j: nat): (k: nat)
    requires j < |xp| - 1 && xp[j] <= x < xp[|xp| - 1]
    ensures j <= k < |xp| - 1 && xp[k] <= x < xp[k + 1]
    decreases |xp| - j
  {
    if x < xp[j + 1] then j else Segment(x, xp, j + 1)
  }

  /** One point of `numpy.interp(x, xp, fp, left=nan, right=nan)`: missing before the first sample
      time or after the last one, otherwise the linear interpolation of the bracketing samples. */
  function Interp(x: real, xp: seq<real>, fp: seq<real>): (r: Cell)
    requires |xp| == |fp| > 0
    ensures r.None? <==> x < xp[0] || xp[|xp| - 1] < x
  {
    var last := |xp| - 1;
    if x < xp[0] || xp[last] < x then None
    else if x == xp[last] then Some(fp[last])
    else
      var j := Segment(x, xp, 0);
      Some(fp[j] + (x - xp[j]) * (fp[j + 1] - fp[j]) / (xp[j + 1] - xp[j]))
  }

  /** Interpolating at one of the sample times of increasing samples gives that sample back. */
  lemma InterpAtSample(xp: seq<real>, fp: seq<real>, i: nat)
    requires |xp| == |fp| && i < |xp| && StrictlyIncreasing(xp)
    ensures Interp(xp[i], xp, fp) == Some(fp[i])
  {
    if i < |xp| - 1 {
      var j := Segment(xp[i], xp, 0);
      assert xp[j] <= xp[i] < xp[j + 1];
    }
  }

  /** Interpolating a constant column inside its time span gives the constant. */
  lemma InterpOfConstant(x: real, xp: seq<real>, fp: seq<real>, c: real)
    requires |xp| == |fp| > 0 && forall k :: 0 <= k < |fp| ==> fp[k] == c
    requires xp[0] <= x <= xp[|xp| - 1]
    ensures Interp(x, xp, fp) == Some(c)
  {
    if x != xp[|xp| - 1] {
      var j := Segment(x, xp, 0);
      var d := xp[j + 1] - xp[j];
      assert fp[j + 1] - fp[j] == 0.0;
      assert (x - xp[j]) * (fp[j + 1] - fp[j]) == 0.0;
      assert 0.0 / d == 0.0;
    }
  }

  /** The first and last original time of a raw series. */
  function FirstTime(s: Series, timeField: string): real
    requires RawSeries(s, timeField)
  {
    s[timeField][0].value
  }

  function LastTime(s: Series, timeField: string): real
    requires RawSeries(s, timeField)
  {
    s[timeField][|s[timeField]| - 1].value
  }

  /** One entity of `interpolateToTimeAxis`: every non-time field interpolated against the original
      time column, then the time column replaced by the axis. */
  function Resample(s: Series, timeField: string, axis: seq<real>): (r: Series)
    requires RawSeries(s, timeField) && SeriesValid(s, timeField)
    ensures r.Keys == s.Keys && SeriesValid(r, timeField)
    ensures |r[timeField]| == |axis|
    ensures forall k :: 0 <= k < |axis| ==> r[timeField][k] == Some(axis[k])
    ensures forall f, k :: f in r && f != timeField && 0 <= k < |axis| ==>
              (r[f][k].None? <==> axis[k] < FirstTime(s, timeField) || LastTime(s, timeField) < axis[k])
  {
    var xp := Values(s[timeField]);
    map f | f in s ::
      if f == timeField then seq(|axis|, k requires 0 <= k < |axis| => Some(axis[k]))
      else
        var fp := Values(s[f]);
        seq(|axis|, k requires 0 <= k < |axis| => Interp(axis[k], xp, fp))
  }

  /** Resampling onto an axis that contains an original sample time keeps that sample, when the
      original times increase. */
  lemma ResampleKeepsSamples(s: Series, timeField: string, axis: seq<real>, k: nat, i: nat)
    requires RawSeries(s, timeField) && SeriesValid(s, timeField)
    requires StrictlyIncreasing(Values(s[timeField]))
    requires k < |axis| && i < |s[timeField]| && s[timeField][i] == Some(axis[k])
    ensures forall f :: f in s ==> Resample(s, timeField, axis)[f][k] == s[f][i]
  {
    var xp := Values(s[timeField]);
    forall f | f in s && f != timeField ensures Resample(s, timeField, axis)[f][k] == s[f][i] {
      InterpAtSample(xp, Values(s[f]), i);
    }
  }

  /** `interpolateToTimeAxis`: every entity resampled onto `axis`. */
  function Interpolate(m: Manager, axis: seq<real>): (r: Manager)
    requires m.Valid() && m.Raw()
    ensures r.Valid()
    ensures r.timeField == m.timeField && r.ids == m.ids && r.idMapData.Keys == m.idMapData.Keys
    ensures forall id :: id in r.idMapData ==> r.idMapData[id].Keys == m.idMapData[id].Keys
    ensures forall id :: id in r.idMapData ==> |r.idMapData[id][r.timeField]| == |axis|
  {
    m.(idMapData := map id | id in m.idMapData :: Resample(m.idMapData[id], m.timeField, axis))
  }

  /** After resampling onto a sorted axis, an entity has exactly one record at every axis time, and
      its `ID` there is present exactly when the time lies inside the entity's original time span. */
  lemma ResampledRecordAtAxisTime(s: Series, timeField: string, axis: seq<real>, k: nat)
    requires RawSeries(s, timeField) && SeriesValid(s, timeField) && "ID" in s && "ID" != timeField
    requires StrictlyIncreasing(axis) && k < |axis|
    ensures IndividualDataAtTime(Resample(s, timeField, axis), timeField, axis[k])
              == Success(Some(RowAt(Resample(s, timeField, axis), k)))
    ensures RowAt(Resample(s, timeField, axis), k)["ID"].Some? <==>
              FirstTime(s, timeField) <= axis[k] <= LastTime(s, timeField)
  {
    var r := Resample(s, timeField, axis);
    var times := r[timeField];
    var idx := Where(times, Some(axis[k]));
    assert Distinct(times) by {
      forall i, j | 0 <= i < j < |times| ensures times[i] != times[j] {
        assert axis[i] < axis[j];
      }
    }
    DistinctCountOne(times, Some(axis[k]));
    WhereCountsOccurrences(times, Some(axis[k]));
    assert axis[idx[0]] == axis[k];
  }
}
