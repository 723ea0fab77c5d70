/**
 Day 2, report validation. Each input line is a report: whitespace-separated
 integers. A report is safe when it is strictly ascending or strictly descending
 and no two neighbours differ by 4 or more. Part 1 counts safe reports; part 2 also
 counts a report that becomes safe once a single element is removed.
 */
module Day2 {
  import opened Parsing
  import opened Slices

  /* ---------------------------------------------------------------- parsing */

  /** Token `i` is the first that is not an i32, and it fails with `e`. */
  predicate FirstBadToken(ts: seq<string>, i: int, e: Error) {
    0 <= i < |ts| && ParseI32(ts[i]) == Err(e) && forall j :: 0 <= j < i ==> ParseI32(ts[j]).Ok?
  }

  /** A good token in front moves the first bad token one place on. */
  lemma FirstBadTokenShift(ts: seq<string>, i: int, e: Error)
    requires ts != [] && ParseI32(ts[0]).Ok? && FirstBadToken(ts[1..], i, e)
    ensures FirstBadToken(ts, i + 1, e)
  {
    assert forall j :: 1 <= j < i + 1 ==> ts[j] == ts[1..][j - 1];
  }

  /** Parses every token as an i32; fails with the first bad token. */
  function ParseTokens(ts: seq<string>): (r: Result<seq<int>>)
    ensures r.Ok? <==> forall i :: 0 <= i < |ts| ==> ParseI32(ts[i]).Ok?
    ensures r.Ok? ==> |r.value| == |ts| && forall i :: 0 <= i < |ts| ==> ParseI32(ts[i]) == Ok(r.value[i])
    ensures r.Err? ==> exists i :: FirstBadToken(ts, i, r.error)
  {
    if ts == [] then Ok([])
    else
      var head := ParseI32(ts[0]);
      if head.Err? then
        assert FirstBadToken(ts, 0, head.error);
        Err(head.error)
      else
        var tail := ParseTokens(ts[1..]);
        if tail.Err? then
          var i :| FirstBadToken(ts[1..], i, tail.error);
          FirstBadTokenShift(ts, i, tail.error);
          Err(tail.error)
        else
          assert forall i :: 1 <= i < |ts| ==> ts[i] == ts[1..][i - 1];
          Ok([head.value] + tail.value)
  }

  /**
   `Line::from_str`: `split_whitespace`, then every token parsed as i32; one bad
   token fails the line. An empty or blank line is the empty report.
   */
  function ParseReport(s: string): (r: Result<seq<int>>)
    ensures r.Ok? ==> |r.value| == |SplitWhitespace(s)|
    ensures AllWhitespace(s) ==> r == Ok([])
  {
    ParseTokens(SplitWhitespace(s))
  }

  function ShowAll(xs: seq<int>): (ts: seq<string>)
    ensures |ts| == |xs| && forall i :: 0 <= i < |xs| ==> ts[i] == Show(xs[i])
  {
    if xs == [] then [] else [Show(xs[0])] + ShowAll(xs[1..])
  }

  lemma ParseTokensShow(xs: seq<int>)
    requires forall i :: 0 <= i < |xs| ==> InI32(xs[i])
    ensures ParseTokens(ShowAll(xs)) == Ok(xs)
  {
    var ts := ShowAll(xs);
    forall i | 0 <= i < |ts|
      ensures ParseI32(ts[i]) == Ok(xs[i])
    {
      ParseShow(xs[i]);
    }
    ParseTokensOf(ts, xs);
  }

  /** Tokens that parse one by one to `xs` parse together to `xs`. */
  lemma ParseTokensOf(ts: seq<string>, xs: seq<int>)
    requires |ts| == |xs| && forall i :: 0 <= i < |ts| ==> ParseI32(ts[i]) == Ok(xs[i])
    ensures ParseTokens(ts) == Ok(xs)
  {
    var r := ParseTokens(ts);
    assert r.Ok?;
    assert forall i :: 0 <= i < |xs| ==> r.value[i] == xs[i];
    assert r.value == xs;
  }

  /** A report printed as space-separated numbers parses back to itself. */
  lemma ParseReportRoundTrip(xs: seq<int>)
    requires forall i :: 0 <= i < |xs| ==> InI32(xs[i])
    ensures ParseReport(Unwords(ShowAll(xs))) == Ok(xs)
  {
    var ts := ShowAll(xs);
    SplitUnwords(ts);
    ParseTokensShow(xs);
  }

  /** A token that is not an integer fails the whole line. */
  lemma BadTokenFailsReport(s: string, i: int)
    requires 0 <= i < |SplitWhitespace(s)| && ParseI32(SplitWhitespace(s)[i]).Err?
    ensures ParseReport(s).Err?
  {
  }

  /* ---------------------------------------------------------------- safety */

  /** `is_sorted_by(|a, b| b > a)`: every window of two is strictly increasing. */
  predicate Ascending(r: seq<int>) {
    |r| < 2 || (r[0] < r[1] && Ascending(r[1..]))
  }

  /** `is_sorted_by(|a, b| b < a)`: every window of two is strictly decreasing. */
  predicate Descending(r: seq<int>) {
    |r| < 2 || (r[0] > r[1] && Descending(r[1..]))
  }

  lemma {:induction false} AscendingIff(r: seq<int>)
    ensures Ascending(r) <==> forall i :: 0 <= i < |r| - 1 ==> r[i] < r[i + 1]
  {
    if |r| >= 2 {
      AscendingIff(r[1..]);
      assert forall i :: 1 <= i < |r| - 1 ==> r[i] == r[1..][i - 1] && r[i + 1] == r[1..][i];
    }
  }

  lemma {:induction false} DescendingIff(r: seq<int>)
    ensures Descending(r) <==> forall i :: 0 <= i < |r| - 1 ==> r[i] > r[i + 1]
  {
    if |r| >= 2 {
      DescendingIff(r[1..]);
      assert forall i :: 1 <= i < |r| - 1 ==> r[i] == r[1..][i - 1] && r[i + 1] == r[1..][i];
    }
  }

  function Abs(x: int): nat {
    if x >= 0 then x else -x
  }

  function Max(a: int, b: int): int {
    if a >= b then a else b
  }

  /** `windows(2).fold(acc, |acc, w| max(acc, |w[0] - w[1]|))`. */
  function MaxStepFold(acc: int, r: seq<int>): int
    decreases |r|
  {
    if |r| < 2 then acc else MaxStepFold(Max(acc, Abs(r[0] - r[1])), r[1..])
  }

  /** `Line::max_step`: the fold started at 0. */
  function MaxStep(r: seq<int>): int
  {
    MaxStepFold(0, r)
  }

  /** Some adjacent pair of `r` differs by exactly `d`. */
  predicate IsStep(r: seq<int>, d: int) {
    exists i :: 0 <= i < |r| - 1 && Abs(r[i] - r[i + 1]) == d
  }

  lemma MaxStepFoldBounds(acc: int, r: seq<int>)
    ensures acc <= MaxStepFold(acc, r)
    ensures forall i :: 0 <= i < |r| - 1 ==> Abs(r[i] - r[i + 1]) <= MaxStepFold(acc, r)
    ensures MaxStepFold(acc, r) == acc || IsStep(r, MaxStepFold(acc, r))
  {
    MaxStepFoldAtLeast(acc, r);
    MaxStepFoldAbove(acc, r);
    MaxStepFoldAttained(acc, r);
  }

  lemma {:induction false} MaxStepFoldAtLeast(acc: int, r: seq<int>)
    ensures acc <= MaxStepFold(acc, r)
    decreases |r|
  {
    if |r| >= 2 {
      MaxStepFoldAtLeast(Max(acc, Abs(r[0] - r[1])), r[1..]);
    }
  }

  lemma {:induction false} MaxStepFoldAbove(acc: int, r: seq<int>)
    ensures forall i :: 0 <= i < |r| - 1 ==> Abs(r[i] - r[i + 1]) <= MaxStepFold(acc, r)
    decreases |r|
  {
    if |r| >= 2 {
      var t := r[1..];
      var acc' := Max(acc, Abs(r[0] - r[1]));
      var m := MaxStepFold(acc', t);
      assert m == MaxStepFold(acc, r);
      MaxStepFoldAtLeast(acc', t);
      MaxStepFoldAbove(acc', t);
      forall i | 0 <= i < |r| - 1
        ensures Abs(r[i] - r[i + 1]) <= m
      {
        if i > 0 {
          assert r[i] == t[i - 1] && r[i + 1] == t[i];
        }
      }
    }
  }

  lemma {:induction false} MaxStepFoldAttained(acc: int, r: seq<int>)
    ensures MaxStepFold(acc, r) == acc || IsStep(r, MaxStepFold(acc, r))
    decreases |r|
  {
    if |r| >= 2 {
      var t := r[1..];
      var acc' := Max(acc, Abs(r[0] - r[1]));
      var m := MaxStepFold(acc', t);
      assert m == MaxStepFold(acc, r);
      MaxStepFoldAttained(acc', t);
      if m != acc {
        if m == acc' {
          assert Abs(r[0] - r[1]) == m;
        } else {
          var j :| 0 <= j < |t| - 1 && Abs(t[j] - t[j + 1]) == m;
          assert r[j + 1] == t[j] && r[j + 2] == t[j + 1];
        }
      }
    }
  }

  /** `max_step` is the largest adjacent difference, or 0 for fewer than two elements. */
  lemma MaxStepIsMaximum(r: seq<int>)
    ensures |r| < 2 ==> MaxStep(r) == 0
    ensures forall i :: 0 <= i < |r| - 1 ==> Abs(r[i] - r[i + 1]) <= MaxStep(r)
    ensures |r| >= 2 ==> IsStep(r, MaxStep(r))
  {
    MaxStepFoldBounds(0, r);
    if |r| >= 2 && MaxStep(r) == 0 {
      assert Abs(r[0] - r[1]) == 0;
    }
  }

  /** The safety test of both parts. */
  predicate Safe(r: seq<int>) {
    (Ascending(r) || Descending(r)) && MaxStep(r) < 4
  }

  /** Every neighbour is 1 to 3 above the previous one. */
  predicate GentlyRising(r: seq<int>) {
    forall i :: 0 <= i < |r| - 1 ==> 1 <= r[i + 1] - r[i] <= 3
  }

  /** Every neighbour is 1 to 3 below the previous one. */
  predicate GentlyFalling(r: seq<int>) {
    forall i :: 0 <= i < |r| - 1 ==> 1 <= r[i] - r[i + 1] <= 3
  }

  /** Safe means monotone with every adjacent difference of magnitude 1 to 3. */
  lemma SafeIff(r: seq<int>)
    ensures Safe(r) <==> GentlyRising(r) || GentlyFalling(r)
  {
    if Safe(r) {
      SafeIsGentle(r);
    }
    if GentlyRising(r) || GentlyFalling(r) {
      GentleIsSafe(r);
    }
  }

  lemma SafeIsGentle(r: seq<int>)
    requires Safe(r)
    ensures GentlyRising(r) || GentlyFalling(r)
  {
    AscendingIff(r);
    DescendingIff(r);
    MaxStepFoldAbove(0, r);
    if Ascending(r) {
      forall i | 0 <= i < |r| - 1
        ensures 1 <= r[i + 1] - r[i] <= 3
      {
        assert Abs(r[i] - r[i + 1]) <= MaxStep(r);
      }
    } else {
      forall i | 0 <= i < |r| - 1
        ensures 1 <= r[i] - r[i + 1] <= 3
      {
        assert Abs(r[i] - r[i + 1]) <= MaxStep(r);
      }
    }
  }

  lemma GentleIsSafe(r: seq<int>)
    requires GentlyRising(r) || GentlyFalling(r)
    ensures Safe(r)
  {
    AscendingIff(r);
    DescendingIff(r);
    MaxStepIsMaximum(r);
    if |r| >= 2 {
      var i :| 0 <= i < |r| - 1 && Abs(r[i] - r[i + 1]) == MaxStep(r);
      assert MaxStep(r) <= 3;
    }
  }

  /* ---------------------------------------------------------------- dampening */

  /** `Vec::remove(n)` on a copy: `r` without its element at `n`, the rest in order. */
  function Remove(r: seq<int>, n: nat): (d: seq<int>)
    requires n < |r|
    ensures |d| == |r| - 1
    ensures forall i :: 0 <= i < n ==> d[i] == r[i]
    ensures forall i :: n <= i < |d| ==> d[i] == r[i + 1]
  {
    r[..n] + r[n + 1..]
  }

  /** The dampening loop from index `n` on: true at the first removal that is safe. */
  function DampenedFrom(r: seq<int>, n: nat): (found: bool)
    requires n <= |r|
    ensures found <==> exists k :: n <= k < |r| && Safe(Remove(r, k))
    decreases |r| - n
  {
    if n == |r| then false
    else if Safe(Remove(r, n)) then true
    else DampenedFrom(r, n + 1)
  }

  /** The part 2 test: safe as it is, or after removing one element. */
  predicate Tolerable(r: seq<int>) {
    Safe(r) || DampenedFrom(r, 0)
  }

  lemma TolerableIff(r: seq<int>)
    ensures Tolerable(r) <==> Safe(r) || exists k :: 0 <= k < |r| && Safe(Remove(r, k))
  {
  }

  /* ---------------------------------------------------------------- parts */

  /** Gathers the reports of all lines, or returns the first parse error. */
  function CollectReports(parsed: seq<Result<seq<int>>>): (r: Result<seq<seq<int>>>)
    ensures r.Ok? <==> forall i :: 0 <= i < |parsed| ==> parsed[i].Ok?
    ensures r.Ok? ==> |r.value| == |parsed| && forall i :: 0 <= i < |parsed| ==> parsed[i] == Ok(r.value[i])
  {
    if parsed == [] then Ok([])
    else if parsed[0].Err? then Err(parsed[0].error)
    else
      var tail := CollectReports(parsed[1..]);
      if tail.Err? then Err(tail.error) else Ok([parsed[0].value] + tail.value)
  }

  /** Number of reports that pass `accept`. */
  function CountAccepted(reports: seq<seq<int>>, accept: seq<int> -> bool): (n: nat)
    ensures n <= |reports|
  {
    if reports == [] then 0
    else (if accept(reports[0]) then 1 else 0) + CountAccepted(reports[1..], accept)
  }

  /** The shared loop of both parts: parse every line, then count the accepted reports. */
  function Tally(lines: seq<string>, accept: seq<int> -> bool): (r: Result<nat>)
    ensures r.Ok? ==> r.value <= |lines|
  {
    TallyParsed(Map(ParseReport, lines), accept)
  }

  /** Counts the accepted reports once every line has parsed, else the first error. */
  function TallyParsed(parsed: seq<Result<seq<int>>>, accept: seq<int> -> bool): (r: Result<nat>)
    ensures r.Ok? <==> forall i :: 0 <= i < |parsed| ==> parsed[i].Ok?
    ensures r.Ok? ==> r.value <= |parsed|
  {
    var reports := CollectReports(parsed);
    if reports.Err? then Err(reports.error) else Ok(CountAccepted(reports.value, accept))
  }

  /** `day2part1`: the number of lines whose report is safe. */
  function Part1(lines: seq<string>): (r: Result<nat>)
    ensures r.Ok? <==> forall i :: 0 <= i < |lines| ==> ParseReport(lines[i]).Ok?
    ensures r.Ok? ==> r.value <= |lines|
    ensures r.Ok? ==> r.value == |AcceptedLines(lines, Safe)|
  {
    var r := Tally(lines, Safe);
    if r.Ok? then TallyCountsLines(lines, Safe); r else r
  }

  /** `day2part2`: the number of lines whose report is tolerable. */
  function Part2(lines: seq<string>): (r: Result<nat>)
    ensures r.Ok? <==> forall i :: 0 <= i < |lines| ==> ParseReport(lines[i]).Ok?
    ensures r.Ok? ==> r.value <= |lines|
    ensures r.Ok? ==> r.value == |AcceptedLines(lines, Tolerable)|
  {
    var r := Tally(lines, Tolerable);
    if r.Ok? then TallyCountsLines(lines, Tolerable); r else r
  }

  /* ---------------------------------------------------------------- what is counted */

  /** The positions among the first `k` reports of those that pass `accept`. */
  function AcceptedPositions(reports: seq<seq<int>>, accept: seq<int> -> bool, k: nat): set<nat>
    requires k <= |reports|
  {
    set i: nat | i < k && accept(reports[i])
  }

  /** The positions of the lines whose report passes `accept`, when every line parses. */
  function AcceptedLines(lines: seq<string>, accept: seq<int> -> bool): set<nat>
    requires forall i :: 0 <= i < |lines| ==> ParseReport(lines[i]).Ok?
  {
    set i: nat | i < |lines| && accept(ParseReport(lines[i]).value)
  }

  lemma {:induction false} CountAcceptedSnoc(reports: seq<seq<int>>, x: seq<int>, accept: seq<int> -> bool)
    ensures CountAccepted(reports + [x], accept) == CountAccepted(reports, accept) + (if accept(x) then 1 else 0)
  {
    if reports == [] {
      assert reports + [x] == [x];
      assert [x][1..] == [];
    } else {
      assert (reports + [x])[1..] == reports[1..] + [x];
      CountAcceptedSnoc(reports[1..], x, accept);
    }
  }

  /** The count over the first `k` reports is the number of accepted positions among them. */
  lemma {:induction false} CountAcceptedPrefix(reports: seq<seq<int>>, accept: seq<int> -> bool, k: nat)
    requires k <= |reports|
    ensures CountAccepted(reports[..k], accept) == |AcceptedPositions(reports, accept, k)|
    decreases k
  {
    if k == 0 {
      assert AcceptedPositions(reports, accept, 0) == {};
    } else {
      CountAcceptedPrefix(reports, accept, k - 1);
      assert reports[..k] == reports[..k - 1] + [reports[k - 1]];
      CountAcceptedSnoc(reports[..k - 1], reports[k - 1], accept);
      var before := AcceptedPositions(reports, accept, k - 1);
      if accept(reports[k - 1]) {
        assert AcceptedPositions(reports, accept, k) == before + {k - 1};
        assert k - 1 !in before;
      } else {
        assert AcceptedPositions(reports, accept, k) == before;
      }
    }
  }

  /** `filter(accept).count()` is the number of positions whose report passes `accept`. */
  lemma CountAcceptedIsPositions(reports: seq<seq<int>>, accept: seq<int> -> bool)
    ensures CountAccepted(reports, accept) == |AcceptedPositions(reports, accept, |reports|)|
  {
    CountAcceptedPrefix(reports, accept, |reports|);
    assert reports[..|reports|] == reports;
  }

  /** When every line parses, the tally is the number of lines whose report passes `accept`. */
  lemma TallyCountsLines(lines: seq<string>, accept: seq<int> -> bool)
    requires Tally(lines, accept).Ok?
    ensures forall i :: 0 <= i < |lines| ==> ParseReport(lines[i]).Ok?
    ensures Tally(lines, accept).value == |AcceptedLines(lines, accept)|
  {
    var parsed := Map(ParseReport, lines);
    assert forall i :: 0 <= i < |lines| ==> parsed[i] == ParseReport(lines[i]);
    var reports := CollectReports(parsed).value;
    CountAcceptedIsPositions(reports, accept);
    assert AcceptedPositions(reports, accept, |reports|) == AcceptedLines(lines, accept);
  }

  /** Both parts fail exactly when some line does not parse. */
  lemma PartsFailTogether(lines: seq<string>)
    ensures Part1(lines).Ok? <==> forall i :: 0 <= i < |lines| ==> ParseReport(lines[i]).Ok?
    ensures Part1(lines).Ok? <==> Part2(lines).Ok?
  {
  }

  lemma {:induction false} CountAcceptedMonotone(reports: seq<seq<int>>, p: seq<int> -> bool, q: seq<int> -> bool)
    requires forall i :: 0 <= i < |reports| ==> p(reports[i]) ==> q(reports[i])
    ensures CountAccepted(reports, p) <= CountAccepted(reports, q)
  {
    if reports != [] {
      CountAcceptedMonotone(reports[1..], p, q);
    }
  }

  /** Dampening only adds reports: part 1 <= part 2 <= number of lines. */
  lemma Part1AtMostPart2(lines: seq<string>)
    requires Part1(lines).Ok?
    ensures Part2(lines).Ok?
    ensures Part1(lines).value <= Part2(lines).value <= |lines|
  {
    PartsFailTogether(lines);
    var reports := CollectReports(Map(ParseReport, lines)).value;
    CountAcceptedMonotone(reports, Safe, Tolerable);
  }

  lemma {:induction false} CountAcceptedConcat(a: seq<seq<int>>, b: seq<seq<int>>, accept: seq<int> -> bool)
    ensures CountAccepted(a + b, accept) == CountAccepted(a, accept) + CountAccepted(b, accept)
  {
    if a != [] {
      assert (a + b)[0] == a[0] && (a + b)[1..] == a[1..] + b;
      CountAcceptedConcat(a[1..], b, accept);
    } else {
      assert a + b == b;
    }
  }

  lemma CollectReportsConcat(a: seq<Result<seq<int>>>, b: seq<Result<seq<int>>>)
    requires CollectReports(a).Ok? && CollectReports(b).Ok?
    ensures CollectReports(a + b) == Ok(CollectReports(a).value + CollectReports(b).value)
  {
    var ra, rb := CollectReports(a).value, CollectReports(b).value;
    var ab := a + b;
    assert forall i :: 0 <= i < |ab| ==> ab[i] == if i < |a| then a[i] else b[i - |a|];
    var r := CollectReports(ab);
    assert r.Ok?;
    assert r.value == ra + rb by {
      forall i | 0 <= i < |ab|
        ensures r.value[i] == (ra + rb)[i]
      {
        if i < |a| {
          assert ab[i] == a[i] == Ok(ra[i]);
        } else {
          assert ab[i] == b[i - |a|] == Ok(rb[i - |a|]);
        }
      }
    }
  }

  lemma TallyParsedConcat(pa: seq<Result<seq<int>>>, pb: seq<Result<seq<int>>>, accept: seq<int> -> bool)
    requires TallyParsed(pa, accept).Ok? && TallyParsed(pb, accept).Ok?
    ensures TallyParsed(pa + pb, accept) == Ok(TallyParsed(pa, accept).value + TallyParsed(pb, accept).value)
  {
    CollectReportsConcat(pa, pb);
    CountAcceptedConcat(CollectReports(pa).value, CollectReports(pb).value, accept);
  }

  /** Each line contributes on its own: the count over two inputs is the sum of their counts. */
  lemma TallyConcat(lines: seq<string>, more: seq<string>, accept: seq<int> -> bool)
    requires Tally(lines, accept).Ok? && Tally(more, accept).Ok?
    ensures Tally(lines + more, accept).Ok?
    ensures Tally(lines + more, accept).value == Tally(lines, accept).value + Tally(more, accept).value
  {
    var pa, pb := Map(ParseReport, lines), Map(ParseReport, more);
    assert Map(ParseReport, lines + more) == pa + pb by {
      MapConcat(ParseReport, lines, more);
    }
    TallyParsedConcat(pa, pb, accept);
  }

  /** A single line counts 1 in part 1 exactly when its report is safe, and in part 2 when it is tolerable. */
  lemma SingleLine(line: string)
    requires ParseReport(line).Ok?
    ensures Part1([line]) == Ok(if Safe(ParseReport(line).value) then 1 else 0)
    ensures Part2([line]) == Ok(if Tolerable(ParseReport(line).value) then 1 else 0)
  {
    var parsed := Map(ParseReport, [line]);
    assert parsed == [ParseReport(line)];
    var r := ParseReport(line).value;
    assert CollectReports(parsed) == Ok([r]) by {
      assert parsed[1..] == [];
      assert [r] + [] == [r];
    }
    assert CountAccepted([r], Safe) == if Safe(r) then 1 else 0 by {
      assert [r][1..] == [];
    }
    assert CountAccepted([r], Tolerable) == if Tolerable(r) then 1 else 0 by {
      assert [r][1..] == [];
    }
  }

  /* ---------------------------------------------------------------- examples */

  /** `7 6 4 2 1` is safe. */
  lemma ExampleSafe()
    ensures Safe([7, 6, 4, 2, 1])
  {
    SafeIff([7, 6, 4, 2, 1]);
  }

  /** `1 2 7 8 9` is unsafe: the step from 2 to 7 is 5. */
  lemma ExampleTooSteep()
    ensures !Safe([1, 2, 7, 8, 9])
  {
    SafeIff([1, 2, 7, 8, 9]);
    var r := [1, 2, 7, 8, 9];
    assert r[2] - r[1] == 5;
  }

  /** `1 3 2 4 5` is unsafe, but removing the 3 makes it safe. */
  lemma ExampleDampened()
    ensures !Safe([1, 3, 2, 4, 5])
    ensures Tolerable([1, 3, 2, 4, 5])
  {
    ExampleUnsafe([1, 3, 2, 4, 5]);
    ExampleRemoval([1, 3, 2, 4, 5]);
  }

  lemma ExampleUnsafe(r: seq<int>)
    requires r == [1, 3, 2, 4, 5]
    ensures !Safe(r)
  {
    SafeIff(r);
    assert r[1] > r[2] && r[0] < r[1];
  }

  lemma ExampleRemoval(r: seq<int>)
    requires r == [1, 3, 2, 4, 5]
    ensures Tolerable(r)
  {
    var t := Remove(r, 1);
    assert t == [1, 2, 4, 5];
    SafeIff(t);
    TolerableIff(r);
  }
}
