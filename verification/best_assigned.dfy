/** The "best assigned counterpart" of an entity in the report: among the non-negative counterpart
    IDs of its history, the most frequent one, ties going to the smallest ID. The original takes
    `numpy.unique` of the IDs (sorted distinct values with their counts) and the value at
    `numpy.argmax` of the counts (the first largest count). */
module BestAssigned {
  import opened Wrappers
  import opened Errors
  import opened Seqs

  /** `ids[numpy.where(ids >= 0)]`: the non-negative IDs, in history order. */
  function NonNegative(ids: seq<int>): (valid: seq<int>)
    ensures forall x :: x in valid <==> x in ids && x >= 0
    ensures forall x :: x >= 0 ==> Count(valid, x) == Count(ids, x)
    ensures forall x :: x < 0 ==> Count(valid, x) == 0
  {
    if |ids| == 0 then []
    else
      var rest := NonNegative(ids[..|ids| - 1]);
      var last := ids[|ids| - 1];
      if last >= 0 then
        assert (rest + [last])[..|rest|] == rest;
        assert forall x :: x in ids <==> x in ids[..|ids| - 1] || x == last;
        rest + [last]
      else
        assert forall x :: x in ids <==> x in ids[..|ids| - 1] || x == last;
        rest
  }

  /** `b` is at least as good a pick as `x`: more frequent, or as frequent and no larger. */
  predicate AtLeastAsGood(valid: seq<int>, b: int, x: int) {
    Count(valid, x) < Count(valid, b) || (Count(valid, x) == Count(valid, b) && b <= x)
  }

  /** `b` is the best counterpart: it occurs, and it is at least as good as every value that does. */
  predicate IsBest(valid: seq<int>, b: int) {
    b in valid && forall x :: x in valid ==> AtLeastAsGood(valid, b, x)
  }

  /** There is at most one best counterpart. */
  lemma BestIsUnique(valid: seq<int>, a: int, b: int)
    requires IsBest(valid, a) && IsBest(valid, b)
    ensures a == b
  {
    assert AtLeastAsGood(valid, a, b) && AtLeastAsGood(valid, b, a);
  }

  // ---------------------------------------------------------------- numpy's route to the answer

  /** `numpy.argmax`: the first position of the largest entry. */
  function ArgMax(counts: seq<nat>): (k: nat)
    requires |counts| > 0
    ensures k < |counts|
    ensures forall j :: 0 <= j < |counts| ==> counts[j] <= counts[k]
    ensures forall j :: 0 <= j < k ==> counts[j] < counts[k]
  {
    if |counts| == 1 then 0
    else
      var k := ArgMax(counts[..|counts| - 1]);
      if counts[|counts| - 1] > counts[k] then |counts| - 1 else k
  }

  /** What `numpy.unique(valid, return_counts=True)` returns: the distinct values in increasing
      order and, at the same position, how often each occurs. */
  ghost predicate IsUniqueWithCounts(valid: seq<int>, u: seq<int>, counts: seq<nat>) {
    && |u| == |counts|
    && (forall p, q :: 0 <= p < q < |u| ==> u[p] < u[q])
    && (forall x :: x in u <==> x in valid)
    && (forall p :: 0 <= p < |u| ==> counts[p] == Count(valid, u[p]))
  }

  /** The value at the first largest count of the sorted distinct values is the best counterpart:
      a later value with the same count is larger, an earlier one has a smaller count. */
  lemma ArgMaxOfUniqueIsBest(valid: seq<int>, u: seq<int>, counts: seq<nat>)
    requires IsUniqueWithCounts(valid, u, counts) && |valid| > 0
    ensures |u| > 0 && IsBest(valid, u[ArgMax(counts)])
  {
    var x0 := valid[0];
    assert x0 in valid;
    assert x0 in u;
    var k := ArgMax(counts);
    forall x | x in valid ensures AtLeastAsGood(valid, u[k], x) {
      var p :| 0 <= p < |u| && u[p] == x;
      if p < k {
        assert counts[p] < counts[k];
      } else if k < p {
        assert u[k] < u[p];
      }
    }
  }

  // ---------------------------------------------------------------- a direct computation

  /** A scan of `valid` from position `i` on, with `b` the best pick among the values before `i`. */
  function ScanBest(valid: seq<int>, i: nat, b: int): (r: int)
    requires 0 < i <= |valid| && b in valid
    requires forall j :: 0 <= j < i ==> AtLeastAsGood(valid, b, valid[j])
    ensures IsBest(valid, r)
    decreases |valid| - i
  {
    if i == |valid| then
      assert forall x :: x in valid ==> exists j :: 0 <= j < |valid| && valid[j] == x;
      b
    else
      var x := valid[i];
      if AtLeastAsGood(valid, b, x) then ScanBest(valid, i + 1, b)
      else
        assert forall j :: 0 <= j < i + 1 ==> AtLeastAsGood(valid, x, valid[j]) by {
          forall j | 0 <= j < i + 1 ensures AtLeastAsGood(valid, x, valid[j]) {
            if j < i {
              assert AtLeastAsGood(valid, b, valid[j]);
            }
          }
        }
        ScanBest(valid, i + 1, x)
  }

  /** The most frequent value of a non-empty sequence, ties to the smallest. */
  function Mode(valid: seq<int>): (b: int)
    requires |valid| > 0
    ensures IsBest(valid, b)
  {
    ScanBest(valid, 1, valid[0])
  }

  /** `numpy.unique` followed by `numpy.argmax` computes the same value as `Mode`. */
  lemma ModeIsNumpyPick(valid: seq<int>, u: seq<int>, counts: seq<nat>)
    requires IsUniqueWithCounts(valid, u, counts) && |valid| > 0
    ensures |u| > 0 && Mode(valid) == u[ArgMax(counts)]
  {
    ArgMaxOfUniqueIsBest(valid, u, counts);
    BestIsUnique(valid, Mode(valid), u[ArgMax(counts)]);
  }

  // ---------------------------------------------------------------- the two report paths

  /** The track path: the best assigned truth of a track's history of truth IDs, or `None` when
      the track was never assigned (the report says so instead). */
  function BestAssignedTruth(truthIds: seq<int>): (best: Option<int>)
    ensures best.None? <==> forall k :: 0 <= k < |truthIds| ==> truthIds[k] < 0
    ensures best.Some? ==> best.value >= 0 && IsBest(NonNegative(truthIds), best.value)
  {
    var valid := NonNegative(truthIds);
    if |valid| == 0 then
      assert forall k :: 0 <= k < |truthIds| ==> truthIds[k] !in valid;
      None
    else
      assert valid[0] in truthIds;
      Some(Mode(valid))
  }

  /** The truth path as written: the same computation with no guard for an empty selection, so
      `numpy.argmax` of no counts raises for a truth that was never assigned a track. */
  function BestAssignedTrackAsWritten(truthId: int, trkIds: seq<int>): (r: Result<int, Error>)
    ensures r.Failure? <==> forall k :: 0 <= k < |trkIds| ==> trkIds[k] < 0
    ensures r.Failure? ==> r.error == EmptyArgmax(truthId)
    ensures r.Success? ==> r.value >= 0 && IsBest(NonNegative(trkIds), r.value)
  {
    var valid := NonNegative(trkIds);
    if |valid| == 0 then
      assert forall k :: 0 <= k < |trkIds| ==> trkIds[k] !in valid;
      Failure(EmptyArgmax(truthId))
    else
      assert valid[0] in trkIds;
      Success(Mode(valid))
  }

  /** The truth path as intended: a truth that was never assigned is reported as such, as the
      track path does. */
  function BestAssignedTrack(trkIds: seq<int>): (best: Option<int>)
    ensures best.None? <==> forall k :: 0 <= k < |trkIds| ==> trkIds[k] < 0
    ensures best.Some? ==> best.value >= 0 && IsBest(NonNegative(trkIds), best.value)
  {
    BestAssignedTruth(trkIds)
  }

  /** The two truth paths agree wherever the written one returns, and a truth that was valid but
      never assigned (a history of `-1` only) makes the written one raise. */
  lemma UnassignedTruthAbortsReport(truthId: int, trkIds: seq<int>)
    ensures BestAssignedTrackAsWritten(truthId, trkIds).Success? ==>
              BestAssignedTrack(trkIds) == Some(BestAssignedTrackAsWritten(truthId, trkIds).value)
    ensures BestAssignedTrackAsWritten(truthId, [-1]) == Failure(EmptyArgmax(truthId))
    ensures BestAssignedTrack([-1]) == None
  {
    var w := BestAssignedTrackAsWritten(truthId, trkIds);
    if w.Success? {
      BestIsUnique(NonNegative(trkIds), w.value, BestAssignedTrack(trkIds).value);
    }
  }
}

/** The tick labels of the assignment plots: a negative ID is labelled `Unassigned`, any other ID
    by its decimal digits. */
module Labels {
  import opened Seqs

  predicate IsDigit(c: char) {
    '0' <= c <= '9'
  }

  function DigitChar(d: nat): (c: char)
    requires d < 10
    ensures IsDigit(c) && c as int - '0' as int == d
  {
    ('0' as int + d) as char
  }

  /** `str(n)` for a non-negative integer: its decimal digits, without leading zeros. */
  function Decimal(n: nat): (s: string)
    ensures |s| > 0 && forall k :: 0 <= k < |s| ==> IsDigit(s[k])
    ensures |s| > 1 ==> s[0] != '0'
  {
    if n < 10 then [DigitChar(n)] else Decimal(n / 10) + [DigitChar(n % 10)]
  }

  function DigitValue(c: char): (d: nat)
    requires IsDigit(c)
    ensures d < 10 && DigitChar(d) == c
  {
    c as int - '0' as int
  }

  /** The value of a string of decimal digits. */
  function DigitsValue(s: string): nat
    requires forall k :: 0 <= k < |s| ==> IsDigit(s[k])
  {
    if |s| == 0 then 0 else DigitsValue(s[..|s| - 1]) * 10 + DigitValue(s[|s| - 1])
  }

  /** Reading back the digits of `n` gives `n`. */
  lemma {:induction false} DecimalRoundTrip(n: nat)
    ensures DigitsValue(Decimal(n)) == n
  {
    if n >= 10 {
      DecimalRoundTrip(n / 10);
      var s := Decimal(n);
      assert s[..|s| - 1] == Decimal(n / 10);
    }
  }

  /** A digit string without leading zeros is the decimal form of its value. */
  lemma {:induction false} DigitsRoundTrip(s: string)
    requires |s| > 0 && (forall k :: 0 <= k < |s| ==> IsDigit(s[k]))
    requires |s| > 1 ==> s[0] != '0'
    ensures Decimal(DigitsValue(s)) == s
  {
    var n := DigitsValue(s);
    var d := DigitValue(s[|s| - 1]);
    if |s| == 1 {
      assert s[..0] == [];
      assert DigitsValue(s[..0]) == 0;
      assert n == DigitsValue(s[..0]) * 10 + d;
      assert [DigitChar(d)] == s;
    } else {
      var p := s[..|s| - 1];
      assert p[0] == s[0];
      DigitsRoundTrip(p);
      LeadingDigitPositive(p);
      assert n == DigitsValue(p) * 10 + d && n >= 10;
      assert n / 10 == DigitsValue(p) && n % 10 == d;
      assert s == p + [DigitChar(d)];
    }
  }

  /** A digit string without leading zeros and of length two or more has a non-zero value. */
  lemma {:induction false} LeadingDigitPositive(s: string)
    requires |s| > 0 && (forall k :: 0 <= k < |s| ==> IsDigit(s[k]))
    requires s[0] != '0'
    ensures DigitsValue(s) > 0
  {
    if |s| > 1 {
      var p := s[..|s| - 1];
      assert p[0] == s[0];
      LeadingDigitPositive(p);
    }
  }

  const Unassigned: string := "Unassigned"

  /** The tick label of one value of the assignment plot. */
  function Label(id: int): (s: string)
    ensures id < 0 <==> s == Unassigned
    ensures id >= 0 ==> (forall k :: 0 <= k < |s| ==> IsDigit(s[k])) && DigitsValue(s) == id
    ensures id >= 0 ==> |s| > 0 && (|s| > 1 ==> s[0] != '0')
  {
    if id < 0 then Unassigned
    else
      DecimalRoundTrip(id);
      assert !IsDigit(Unassigned[0]);
      Decimal(id)
  }

  /** Different IDs get different labels, except that every negative ID reads `Unassigned`. */
  lemma LabelsSeparateIds(a: int, b: int)
    requires Label(a) == Label(b)
    ensures a == b || (a < 0 && b < 0)
  {
  }

  /** The tick labels of the sorted distinct values of a history whose only negative value is
      `-1`: `Unassigned` can only be the first label, and no label repeats. */
  lemma TickLabelsOfHistory(u: seq<int>)
    requires forall p, q :: 0 <= p < q < |u| ==> u[p] < u[q]
    requires forall p :: 0 <= p < |u| ==> u[p] >= -1
    ensures forall p :: 0 < p < |u| ==> Label(u[p]) != Unassigned
    ensures forall p, q :: 0 <= p < q < |u| ==> Label(u[p]) != Label(u[q])
  {
    forall p | 0 < p < |u| ensures Label(u[p]) != Unassigned {
      assert u[0] < u[p];
    }
    forall p, q | 0 <= p < q < |u| ensures Label(u[p]) != Label(u[q]) {
      if Label(u[p]) == Label(u[q]) {
        LabelsSeparateIds(u[p], u[q]);
      }
    }
  }
}
