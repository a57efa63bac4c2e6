/** The plot configuration of the report: one `category:x:y` line per plot. Each line is stripped
    of surrounding whitespace and split on `:`; the first three fields name the category and the
    two plotted fields. Pairs are collected per category in file order, and categories keep the
    order of their first appearance. */
module PlotConfig {
  import opened Wrappers
  import opened Errors
  import opened Seqs

  /** Python's whitespace for `str.strip()` without arguments: the ASCII controls tab to carriage
      return, the four information separators, space, and the Unicode space and line separators. */
  predicate IsSpace(c: char) {
    || c == ' ' || '\t' <= c <= '\r' || '\U{1c}' <= c <= '\U{1f}'
    || c == '\U{85}' || c == '\U{a0}' || c == '\U{1680}' || '\U{2000}' <= c <= '\U{200a}'
    || c == '\U{2028}' || c == '\U{2029}' || c == '\U{202f}' || c == '\U{205f}' || c == '\U{3000}'
  }

  // ---------------------------------------------------------------- strip

  /** The length of the leading run of whitespace. */
  function LeadingSpaces(s: string): (n: nat)
    ensures n <= |s|
    ensures forall k :: 0 <= k < n ==> IsSpace(s[k])
    ensures n < |s| ==> !IsSpace(s[n])
  {
    if |s| == 0 || !IsSpace(s[0]) then 0 else 1 + LeadingSpaces(s[1..])
  }

  /** The length of the trailing run of whitespace. */
  function TrailingSpaces(s: string): (n: nat)
    ensures n <= |s|
    ensures forall k :: |s| - n <= k < |s| ==> IsSpace(s[k])
    ensures n < |s| ==> !IsSpace(s[|s| - 1 - n])
  {
    if |s| == 0 || !IsSpace(s[|s| - 1]) then 0 else 1 + TrailingSpaces(s[..|s| - 1])
  }

  /** `str.strip()`: the text between the leading and the trailing whitespace. */
  function Strip(s: string): (r: string)
    ensures |r| <= |s|
    ensures |r| > 0 ==> !IsSpace(r[0]) && !IsSpace(r[|r| - 1])
  {
    var a := LeadingSpaces(s);
    if a == |s| then [] else s[a..|s| - TrailingSpaces(s)]
  }

  /** What stripping means: the result is a piece of the input, everything cut off on either side
      is whitespace, and the result neither starts nor ends with whitespace. */
  ghost predicate IsStripOf(s: string, r: string) {
    && (|r| > 0 ==> !IsSpace(r[0]) && !IsSpace(r[|r| - 1]))
    && exists a: nat, b: nat :: a <= b <= |s| && r == s[a..b]
         && (forall k :: 0 <= k < a ==> IsSpace(s[k]))
         && (forall k :: b <= k < |s| ==> IsSpace(s[k]))
  }

  /** `Strip` meets the description. */
  lemma StripIsStripOf(s: string)
    ensures IsStripOf(s, Strip(s))
  {
    var a := LeadingSpaces(s);
    if a == |s| {
      assert Strip(s) == s[a..a];
    } else {
      assert !IsSpace(s[a]);
    }
  }

  /** The description determines the result: any piece of `s` with whitespace-only margins and
      non-whitespace ends is `Strip(s)`. */
  lemma StripOfIsUnique(s: string, r: string)
    requires IsStripOf(s, r)
    ensures r == Strip(s)
  {
    var a: nat, b: nat :| a <= b <= |s| && r == s[a..b]
      && (forall k :: 0 <= k < a ==> IsSpace(s[k]))
      && (forall k :: b <= k < |s| ==> IsSpace(s[k]));
    var la := LeadingSpaces(s);
    var lb := |s| - TrailingSpaces(s);
    if a == b {
      assert forall k :: 0 <= k < |s| ==> IsSpace(s[k]);
    } else {
      assert !IsSpace(s[a]) && !IsSpace(s[b - 1]) by {
        assert s[a] == r[0] && s[b - 1] == r[|r| - 1];
      }
      assert la == a;
      assert lb == b;
    }
  }

  /** Stripping twice strips nothing more. */
  lemma StripIdempotent(s: string)
    ensures Strip(Strip(s)) == Strip(s)
  {
    var r := Strip(s);
    assert IsStripOf(r, r) by {
      assert r == r[0..|r|];
    }
    StripOfIsUnique(r, r);
  }

  // ---------------------------------------------------------------- split and join

  /** `sep.join(fields)`. */
  function Join(fields: seq<string>, sep: char): string
    requires |fields| > 0
  {
    if |fields| == 1 then fields[0] else fields[0] + [sep] + Join(fields[1..], sep)
  }

  /** `s.split(sep)` for a one-character separator: the maximal separator-free pieces, including
      empty ones, so there is always one more field than separators. */
  function Split(s: string, sep: char): (fields: seq<string>)
    ensures |fields| > 0
    ensures forall k :: 0 <= k < |fields| ==> sep !in fields[k]
    decreases |s|
  {
    if sep !in s then [s]
    else
      var i := IndexOf(s, sep);
      [s[..i]] + Split(s[i + 1..], sep)
  }

  /** Joining the pieces of a split with the separator gives back the input. */
  lemma {:induction false} JoinSplit(s: string, sep: char)
    ensures Join(Split(s, sep), sep) == s
    decreases |s|
  {
    if sep in s {
      var i := IndexOf(s, sep);
      JoinSplit(s[i + 1..], sep);
      assert s == s[..i] + [sep] + s[i + 1..];
    }
  }

  /** Splitting a join of separator-free pieces gives back the pieces. */
  lemma {:induction false} SplitJoin(fields: seq<string>, sep: char)
    requires |fields| > 0
    requires forall k :: 0 <= k < |fields| ==> sep !in fields[k]
    ensures Split(Join(fields, sep), sep) == fields
    decreases |fields|
  {
    if |fields| > 1 {
      var s := Join(fields, sep);
      var tail := Join(fields[1..], sep);
      assert s == fields[0] + [sep] + tail;
      assert s[|fields[0]|] == sep;
      assert IndexOf(s, sep) == |fields[0]| by {
        forall k | 0 <= k < |fields[0]| ensures s[k] != sep {
          assert s[k] == fields[0][k];
        }
      }
      assert s[..|fields[0]|] == fields[0];
      assert s[|fields[0]| + 1..] == tail;
      SplitJoin(fields[1..], sep);
    }
  }

  // ---------------------------------------------------------------- lines

  /** One configured plot: the category it belongs to and the fields on its two axes. */
  datatype PlotSpec = PlotSpec(category: string, x: string, y: string)

  /** One line of the file, numbered from 0: fields 0, 1 and 2 of the stripped line split on `:`.
      Indexing a field that is not there raises, so a line with fewer than three fields fails. */
  function ParseLine(line: string, number: nat): (r: Result<PlotSpec, Error>)
    ensures r.Failure? <==> |Split(Strip(line), ':')| < 3
    ensures r.Failure? ==> r.error == MalformedPlotLine(number)
    ensures r.Success? ==> Split(Strip(line), ':')[..3] == [r.value.category, r.value.x, r.value.y]
  {
    var fields := Split(Strip(line), ':');
    if |fields| < 3 then Failure(MalformedPlotLine(number))
    else Success(PlotSpec(fields[0], fields[1], fields[2]))
  }

  /** A line written as `category:x:y` from colon-free names, without whitespace at its two ends,
      reads back as exactly that plot. */
  lemma ParseFormattedLine(c: string, x: string, y: string, number: nat)
    requires ':' !in c && ':' !in x && ':' !in y
    requires |c| > 0 ==> !IsSpace(c[0])
    requires |y| > 0 ==> !IsSpace(y[|y| - 1])
    ensures ParseLine(c + ":" + x + ":" + y, number) == Success(PlotSpec(c, x, y))
  {
    var line := c + ":" + x + ":" + y;
    assert Join([c, x, y], ':') == line by {
      assert Join([c, x, y][1..], ':') == x + ":" + y by {
        assert [c, x, y][1..][1..] == [y];
      }
    }
    assert |line| > 0 && !IsSpace(line[0]) && !IsSpace(line[|line| - 1]) by {
      if |c| == 0 {
        assert line[0] == ':';
      } else {
        assert line[0] == c[0];
      }
      if |y| == 0 {
        assert line[|line| - 1] == ':';
      } else {
        assert line[|line| - 1] == y[|y| - 1];
      }
    }
    assert IsStripOf(line, line) by {
      assert line == line[0..|line|];
    }
    StripOfIsUnique(line, line);
    SplitJoin([c, x, y], ':');
  }

  /** The outcomes from position `k` on, in order: all the values when every outcome succeeded,
      otherwise the first error, as a loop that raises at its first bad line. */
  function Gather<T>(outcomes: seq<Result<T, Error>>, k: nat): (r: Result<seq<T>, Error>)
    requires k <= |outcomes|
    ensures r.Success? <==> forall j :: k <= j < |outcomes| ==> outcomes[j].Success?
    ensures r.Success? ==> |r.value| == |outcomes| - k
    decreases |outcomes| - k
  {
    if k == |outcomes| then Success([])
    else if outcomes[k].Failure? then Failure(outcomes[k].error)
    else
      var rest := Gather(outcomes, k + 1);
      if rest.Failure? then Failure(rest.error) else Success([outcomes[k].value] + rest.value)
  }

  /** Every value lands at its own position. */
  lemma {:induction false} GatherAt<T>(outcomes: seq<Result<T, Error>>, k: nat, j: nat)
    requires k <= j < |outcomes| && Gather(outcomes, k).Success?
    ensures outcomes[j].Success? && Gather(outcomes, k).value[j - k] == outcomes[j].value
    decreases j - k
  {
    if j > k {
      GatherAt(outcomes, k + 1, j);
    }
  }

  /** A failure is the error of the first failed outcome. */
  lemma {:induction false} GatherFailsAtFirst<T>(outcomes: seq<Result<T, Error>>, k: nat) returns (j: nat)
    requires k <= |outcomes| && Gather(outcomes, k).Failure?
    ensures k <= j < |outcomes| && outcomes[j] == Failure(Gather(outcomes, k).error)
    ensures forall l :: k <= l < j ==> outcomes[l].Success?
    decreases |outcomes| - k
  {
    if outcomes[k].Failure? {
      j := k;
    } else {
      j := GatherFailsAtFirst(outcomes, k + 1);
    }
  }

  // ---------------------------------------------------------------- the plot dictionary

  /** `plotDict`: the categories in insertion order and, per category, its `(x, y)` pairs. */
  datatype PlotDict = PlotDict(categories: seq<string>, plots: map<string, seq<(string, string)>>)
  {
    /** The ordered keys list exactly the dictionary's keys, each once. */
    ghost predicate Valid() {
      Distinct(categories) && forall c :: c in plots <==> c in categories
    }
  }

  /** `plotDict.get(cat, []).append((x, y))`: an existing category keeps its place, a new one goes
      last. */
  function AddPlot(d: PlotDict, p: PlotSpec): (r: PlotDict)
    requires d.Valid()
    ensures r.Valid()
    ensures p.category in r.plots && r.plots[p.category] ==
              (if p.category in d.plots then d.plots[p.category] else []) + [(p.x, p.y)]
    ensures forall c :: c != p.category ==> (c in r.plots <==> c in d.plots)
    ensures forall c :: c in d.plots && c != p.category ==> r.plots[c] == d.plots[c]
  {
    if p.category in d.plots then
      PlotDict(d.categories, d.plots[p.category := d.plots[p.category] + [(p.x, p.y)]])
    else
      PlotDict(d.categories + [p.category], d.plots[p.category := [(p.x, p.y)]])
  }

  /** The plot dictionary of a sequence of parsed lines. */
  function Collect(specs: seq<PlotSpec>): (d: PlotDict)
    ensures d.Valid()
  {
    if |specs| == 0 then PlotDict([], map[]) else AddPlot(Collect(specs[..|specs| - 1]), specs[|specs| - 1])
  }

  /** The pairs of one category, in file order: the reference for what the dictionary holds. */
  function PairsOf(specs: seq<PlotSpec>, c: string): (pairs: seq<(string, string)>)
    ensures |pairs| <= |specs|
  {
    if |specs| == 0 then []
    else
      var last := specs[|specs| - 1];
      PairsOf(specs[..|specs| - 1], c) + (if last.category == c then [(last.x, last.y)] else [])
  }

  /** Some line names the category. */
  predicate Mentions(specs: seq<PlotSpec>, c: string) {
    exists k :: 0 <= k < |specs| && specs[k].category == c
  }

  /** A line is named by the whole file exactly when the prefix or the last line names it. */
  lemma MentionsStep(specs: seq<PlotSpec>, c: string)
    requires |specs| > 0
    ensures Mentions(specs, c) <==> Mentions(specs[..|specs| - 1], c) || specs[|specs| - 1].category == c
  {
    var n := |specs| - 1;
    if Mentions(specs[..n], c) {
      var k :| 0 <= k < n && specs[..n][k].category == c;
      assert specs[k].category == c;
    }
    if Mentions(specs, c) && specs[n].category != c {
      var k :| 0 <= k < |specs| && specs[k].category == c;
      assert specs[..n][k].category == c;
    }
  }

  /** A category is a key exactly when some line names it, and its value lists exactly that
      category's pairs in file order. */
  lemma {:induction false} CollectHoldsPairs(specs: seq<PlotSpec>, c: string)
    ensures c in Collect(specs).plots <==> Mentions(specs, c)
    ensures c in Collect(specs).plots ==> Collect(specs).plots[c] == PairsOf(specs, c)
    ensures c !in Collect(specs).plots ==> PairsOf(specs, c) == []
  {
    if |specs| > 0 {
      CollectHoldsPairs(specs[..|specs| - 1], c);
      MentionsStep(specs, c);
    }
  }

  /** The first line that names a category. */
  function FirstMention(specs: seq<PlotSpec>, c: string): (k: nat)
    requires Mentions(specs, c)
    ensures k < |specs| && specs[k].category == c
    ensures forall l :: 0 <= l < k ==> specs[l].category != c
  {
    if specs[0].category == c then 0
    else
      assert Mentions(specs[1..], c) by {
        var k :| 0 <= k < |specs| && specs[k].category == c;
        assert specs[1..][k - 1].category == c;
      }
      1 + FirstMention(specs[1..], c)
  }

  /** One more line adds its category at the end exactly when it is new. */
  lemma CollectCategoriesStep(specs: seq<PlotSpec>)
    requires |specs| > 0
    ensures var before := Collect(specs[..|specs| - 1]);
            var c := specs[|specs| - 1].category;
            Collect(specs).categories == before.categories + (if c in before.plots then [] else [c])
  {
  }

  /** Categories are ordered by their first appearance in the file. */
  lemma {:induction false} CollectKeepsFirstAppearanceOrder(specs: seq<PlotSpec>, p: nat, q: nat)
    requires p < q < |Collect(specs).categories|
    ensures Mentions(specs, Collect(specs).categories[p]) && Mentions(specs, Collect(specs).categories[q])
    ensures FirstMention(specs, Collect(specs).categories[p]) < FirstMention(specs, Collect(specs).categories[q])
  {
    var n := |specs| - 1;
    var prefix := specs[..n];
    var before := Collect(prefix).categories;
    var cats := Collect(specs).categories;
    CollectCategoriesStep(specs);
    var cp := cats[p];
    var cq := cats[q];
    assert cp == before[p];
    CollectHoldsPairs(prefix, cp);
    FirstMentionOfPrefix(specs, cp);
    if q < |before| {
      assert cq == before[q];
      CollectHoldsPairs(prefix, cq);
      CollectKeepsFirstAppearanceOrder(prefix, p, q);
      FirstMentionOfPrefix(specs, cq);
    } else {
      assert cq == specs[n].category && cq !in Collect(prefix).plots;
      CollectHoldsPairs(prefix, cq);
      assert Mentions(specs, cq);
      assert FirstMention(specs, cq) == n by {
        forall l | 0 <= l < n ensures specs[l].category != cq {
          assert prefix[l] == specs[l];
        }
      }
    }
  }

  /** A category the prefix already names has its first mention there. */
  lemma FirstMentionOfPrefix(specs: seq<PlotSpec>, c: string)
    requires |specs| > 0 && Mentions(specs[..|specs| - 1], c)
    ensures Mentions(specs, c)
    ensures FirstMention(specs, c) == FirstMention(specs[..|specs| - 1], c)
  {
    var n := |specs| - 1;
    var k := FirstMention(specs[..n], c);
    assert specs[k] == specs[..n][k];
    forall l | 0 <= l < k ensures specs[l].category != c {
      assert specs[..n][l] == specs[l];
    }
  }

  /** The outcome of parsing every line of the file, each numbered by its position. */
  function ParseLines(lines: seq<string>): (outcomes: seq<Result<PlotSpec, Error>>)
    ensures |outcomes| == |lines|
    ensures forall k :: 0 <= k < |lines| ==> outcomes[k] == ParseLine(lines[k], k)
  {
    seq(|lines|, k requires 0 <= k < |lines| => ParseLine(lines[k], k))
  }

  /** `_setupPlots`: the dictionary of the configuration file's lines, or the error of its first
      malformed line. */
  function SetupPlots(lines: seq<string>): (r: Result<PlotDict, Error>)
    ensures r.Success? <==> forall k :: 0 <= k < |lines| ==> ParseLine(lines[k], k).Success?
    ensures r.Success? ==> r.value.Valid()
  {
    var specs := Gather(ParseLines(lines), 0);
    if specs.Failure? then Failure(specs.error) else Success(Collect(specs.value))
  }

  /** A malformed file reports its first malformed line; a well-formed one holds, per category,
      exactly the pairs of its lines in file order, and nothing else. */
  lemma SetupPlotsOutcome(lines: seq<string>, c: string)
    ensures SetupPlots(lines).Failure? ==> exists k :: (
              && 0 <= k < |lines| && ParseLine(lines[k], k).Failure?
              && SetupPlots(lines).error == MalformedPlotLine(k)
              && forall l :: 0 <= l < k ==> ParseLine(lines[l], l).Success?)
    ensures SetupPlots(lines).Success? ==>
              var specs := Gather(ParseLines(lines), 0).value;
              && |specs| == |lines|
              && (forall k :: 0 <= k < |lines| ==> ParseLine(lines[k], k) == Success(specs[k]))
              && (c in SetupPlots(lines).value.plots <==> Mentions(specs, c))
              && (c in SetupPlots(lines).value.plots ==> SetupPlots(lines).value.plots[c] == PairsOf(specs, c))
  {
    var outcomes := ParseLines(lines);
    var gathered := Gather(outcomes, 0);
    if gathered.Failure? {
      var k := GatherFailsAtFirst(outcomes, 0);
    } else {
      forall k | 0 <= k < |lines| ensures ParseLine(lines[k], k) == Success(gathered.value[k]) {
        GatherAt(outcomes, 0, k);
      }
      CollectHoldsPairs(gathered.value, c);
    }
  }
}
