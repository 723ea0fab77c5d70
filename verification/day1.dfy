/**
 Day 1, list reconciliation. Every input line holds two integers separated by
 whitespace; the first ones form the left column and the second ones the right
 column. Part 1 sorts both columns and adds up the rank-wise distances; part 2
 weighs every left value by how often it occurs in the right column, counting the
 occurrences through two partition points of the sorted right column.
 */
module Day1 {
  import opened Parsing
  import opened Slices

  /* ---------------------------------------------------------------- parsing */

  /**
   `Line::from_str`: split at the first whitespace character; both halves, trimmed,
   must parse as i32. A line without whitespace is a `MissingSeparator` error, a bad
   half is the error of that half (the left one first).
   */
  function ParseLine(s: string): (r: Result<(int, int)>)
    ensures NoWhitespace(s) <==> r.Err? && r.error.MissingSeparator?
    ensures r.Err? && r.error.MissingSeparator? ==> r.error.line == s
    ensures r.Ok? ==> InI32(r.value.0) && InI32(r.value.1)
    ensures var sp := SplitOnceWhitespace(s); sp.Some? ==>
      (r.Ok? <==> ParseI32(Trim(sp.value.0)).Ok? && ParseI32(Trim(sp.value.1)).Ok?)
    ensures var sp := SplitOnceWhitespace(s); sp.Some? && r.Ok? ==>
      ParseI32(Trim(sp.value.0)) == Ok(r.value.0) && ParseI32(Trim(sp.value.1)) == Ok(r.value.1)
    ensures var sp := SplitOnceWhitespace(s); sp.Some? && ParseI32(Trim(sp.value.0)).Err? ==>
      r == Err(BadInteger(Trim(sp.value.0)))
    ensures var sp := SplitOnceWhitespace(s); sp.Some? && ParseI32(Trim(sp.value.0)).Ok? && ParseI32(Trim(sp.value.1)).Err? ==>
      r == Err(BadInteger(Trim(sp.value.1)))
  {
    match SplitOnceWhitespace(s)
    case None => Err(MissingSeparator(s))
    case Some((a, b)) =>
      match ParseI32(Trim(a))
      case Err(e) => Err(e)
      case Ok(x) =>
        match ParseI32(Trim(b))
        case Err(e) => Err(e)
        case Ok(y) => Ok((x, y))
  }

  /** Two numbers printed with a whitespace separator parse back to themselves. */
  lemma ParseLineRoundTrip(a: int, sep: string, b: int)
    requires InI32(a) && InI32(b)
    requires sep != [] && AllWhitespace(sep)
    ensures ParseLine(Show(a) + sep + Show(b)) == Ok((a, b))
  {
    var x, y := Show(a), Show(b);
    var s := x + sep + y;
    assert SplitOnceWhitespace(s) == Some((x, sep[1..] + y)) by {
      SplitAtSeparator(x, sep, y);
    }
    assert Trim(x) == x by {
      TrimPadded([], x, []);
      assert [] + x + [] == x;
    }
    assert Trim(sep[1..] + y) == y by {
      TrimPadded(sep[1..], y, []);
      assert sep[1..] + y + [] == sep[1..] + y;
    }
    ParseShow(a);
    ParseShow(b);
  }

  /** A half that is not an `i32` after trimming fails the whole line, the left half's error first. */
  lemma BadHalfFailsLine(x: string, sep: string, y: string)
    requires NoWhitespace(x) && sep != [] && IsWhitespace(sep[0])
    requires ParseI32(Trim(x)).Err? || ParseI32(Trim(sep[1..] + y)).Err?
    ensures ParseLine(x + sep + y).Err?
    ensures ParseI32(Trim(x)).Err? ==> ParseLine(x + sep + y) == Err(BadInteger(Trim(x)))
  {
    SplitAtSeparator(x, sep, y);
  }

  lemma SplitAtSeparator(x: string, sep: string, y: string)
    requires NoWhitespace(x) && sep != [] && IsWhitespace(sep[0])
    ensures SplitOnceWhitespace(x + sep + y) == Some((x, sep[1..] + y))
  {
    var s := x + sep + y;
    var n := |x|;
    assert s[..n] == x;
    assert s[n] == sep[0];
    FirstWhitespaceAt(s, n);
    assert s[n + 1..] == sep[1..] + y;
  }

  lemma FirstWhitespaceAt(s: string, n: nat)
    requires n < |s| && IsWhitespace(s[n]) && NoWhitespace(s[..n])
    ensures FirstWhitespace(s) == Some(n)
  {
  }

  /** A line that starts with whitespace has an empty left half, which never parses. */
  lemma LeadingWhitespaceFails(s: string)
    requires s != [] && IsWhitespace(s[0])
    ensures ParseLine(s) == Err(BadInteger(""))
  {
    FirstWhitespaceAt(s, 0);
  }

  /** The first line, in input order, whose parse fails. */
  predicate FirstFailure(lines: seq<string>, i: int) {
    && 0 <= i < |lines|
    && ParseLine(lines[i]).Err?
    && forall j :: 0 <= j < i ==> ParseLine(lines[j]).Ok?
  }

  /**
   The loop that pushes each parsed line into the two columns. It stops at the first
   line that fails to parse and returns that line's error.
   */
  function ParseColumns(lines: seq<string>): (r: Result<(seq<int>, seq<int>)>)
    ensures r.Ok? <==> forall i :: 0 <= i < |lines| ==> ParseLine(lines[i]).Ok?
    ensures r.Ok? ==> |r.value.0| == |lines| && |r.value.1| == |lines|
    ensures r.Ok? ==> forall i :: 0 <= i < |lines| ==>
                        ParseLine(lines[i]).value == (r.value.0[i], r.value.1[i])
  {
    Collect(Map(ParseLine, lines))
  }

  /** Splits parsed pairs into two columns, or returns the first error among them. */
  function Collect(parsed: seq<Result<(int, int)>>): (r: Result<(seq<int>, seq<int>)>)
    ensures r.Ok? <==> forall i :: 0 <= i < |parsed| ==> parsed[i].Ok?
    ensures r.Ok? ==> |r.value.0| == |parsed| && |r.value.1| == |parsed|
    ensures r.Ok? ==> forall i :: 0 <= i < |parsed| ==> parsed[i].value == (r.value.0[i], r.value.1[i])
  {
    if parsed == [] then Ok(([], []))
    else if parsed[0].Err? then Err(parsed[0].error)
    else
      var tail := Collect(parsed[1..]);
      if tail.Err? then Err(tail.error)
      else
        var (left, right) := tail.value;
        Ok(([parsed[0].value.0] + left, [parsed[0].value.1] + right))
  }

  /** A failing run reports the error of the first line that does not parse. */
  lemma {:induction false} ParseColumnsFirstFailure(lines: seq<string>, i: int)
    requires FirstFailure(lines, i)
    ensures ParseColumns(lines) == Err(ParseLine(lines[i]).error)
    decreases |lines|
  {
    CollectFirstFailure(Map(ParseLine, lines), i);
  }

  lemma {:induction false} CollectFirstFailure(parsed: seq<Result<(int, int)>>, i: int)
    requires 0 <= i < |parsed| && parsed[i].Err?
    requires forall j :: 0 <= j < i ==> parsed[j].Ok?
    ensures Collect(parsed) == Err(parsed[i].error)
    decreases |parsed|
  {
    if i > 0 {
      CollectFirstFailure(parsed[1..], i - 1);
    }
  }

  /* ---------------------------------------------------------------- part 1 */

  /** `zip` followed by a fold adding `|l - r|`; the longer sequence's tail is ignored. */
  function ZipDistance(a: seq<int>, b: seq<int>): (d: int)
    ensures d >= 0
  {
    if a == [] || b == [] then 0
    else (if a[0] >= b[0] then a[0] - b[0] else b[0] - a[0]) + ZipDistance(a[1..], b[1..])
  }

  /** Rank-wise distance between the two columns. */
  function TotalDistance(left: seq<int>, right: seq<int>): int
  {
    ZipDistance(Sort(left), Sort(right))
  }

  /** `day1part1`. */
  function Part1(lines: seq<string>): (r: Result<int>)
    ensures r.Ok? <==> ParseColumns(lines).Ok?
    ensures r.Ok? ==> r.value >= 0
  {
    match ParseColumns(lines)
    case Err(e) => Err(e)
    case Ok((left, right)) => Ok(TotalDistance(left, right))
  }

  function Abs(x: int): nat {
    if x >= 0 then x else -x
  }

  /** The sum of `|a[i] - b[i]|` over the first `n` ranks, added up from the last rank. */
  function RankSum(a: seq<int>, b: seq<int>, n: nat): int
    requires n <= |a| && n <= |b|
  {
    if n == 0 then 0 else RankSum(a, b, n - 1) + Abs(a[n - 1] - b[n - 1])
  }

  /** The fold over the zipped sequences is the rank-wise sum over the shorter length. */
  lemma {:induction false} ZipDistanceIsRankSum(a: seq<int>, b: seq<int>)
    ensures ZipDistance(a, b) == RankSum(a, b, if |a| <= |b| then |a| else |b|)
    decreases |a|
  {
    if a != [] && b != [] {
      ZipDistanceIsRankSum(a[1..], b[1..]);
      var n := if |a| <= |b| then |a| else |b|;
      RankSumShift(a, b, n);
    }
  }

  lemma {:induction false} RankSumShift(a: seq<int>, b: seq<int>, n: nat)
    requires 1 <= n <= |a| && n <= |b|
    ensures RankSum(a, b, n) == Abs(a[0] - b[0]) + RankSum(a[1..], b[1..], n - 1)
  {
    if n > 1 {
      RankSumShift(a, b, n - 1);
    }
  }

  /** Part 1's value is the rank-wise distance of the sorted columns. */
  lemma Part1IsRankDistance(lines: seq<string>)
    requires ParseColumns(lines).Ok?
    ensures var (left, right) := ParseColumns(lines).value;
            Part1(lines) == Ok(RankSum(Sort(left), Sort(right), |lines|))
  {
    var (left, right) := ParseColumns(lines).value;
    ZipDistanceIsRankSum(Sort(left), Sort(right));
  }

  lemma {:induction false} ZipDistanceSymmetric(a: seq<int>, b: seq<int>)
    ensures ZipDistance(a, b) == ZipDistance(b, a)
    decreases |a|
  {
    if a != [] && b != [] {
      ZipDistanceSymmetric(a[1..], b[1..]);
    }
  }

  /** Swapping the two columns does not change part 1. */
  lemma TotalDistanceSymmetric(left: seq<int>, right: seq<int>)
    ensures TotalDistance(left, right) == TotalDistance(right, left)
  {
    ZipDistanceSymmetric(Sort(left), Sort(right));
  }

  /** Part 1 depends only on the multisets of the two columns. */
  lemma TotalDistancePermutation(left: seq<int>, right: seq<int>, left': seq<int>, right': seq<int>)
    requires multiset(left) == multiset(left') && multiset(right) == multiset(right')
    ensures TotalDistance(left, right) == TotalDistance(left', right')
  {
    SortPermutation(left, left');
    SortPermutation(right, right');
  }

  lemma {:induction false} ZipDistanceZero(a: seq<int>, b: seq<int>)
    requires |a| == |b|
    ensures ZipDistance(a, b) == 0 <==> a == b
    decreases |a|
  {
    if a != [] {
      ZipDistanceZero(a[1..], b[1..]);
      assert a == [a[0]] + a[1..] && b == [b[0]] + b[1..];
    }
  }

  /** Columns of equal length are at distance 0 exactly when they hold the same multiset. */
  lemma TotalDistanceZero(left: seq<int>, right: seq<int>)
    requires |left| == |right|
    ensures TotalDistance(left, right) == 0 <==> multiset(left) == multiset(right)
  {
    ZipDistanceZero(Sort(left), Sort(right));
    if multiset(left) == multiset(right) {
      SortPermutation(left, right);
    }
  }

  function LeftOf(r: Result<(int, int)>): int {
    if r.Ok? then r.value.0 else 0
  }

  function RightOf(r: Result<(int, int)>): int {
    if r.Ok? then r.value.1 else 0
  }

  /** The columns are the parsed lines' halves, in input order. */
  lemma ColumnsAreMaps(lines: seq<string>)
    requires ParseColumns(lines).Ok?
    ensures ParseColumns(lines).value.0 == Map(LeftOf, Map(ParseLine, lines))
    ensures ParseColumns(lines).value.1 == Map(RightOf, Map(ParseLine, lines))
  {
  }

  /** Reordering the input lines changes neither whether part 1 fails nor its value. */
  lemma Part1LineOrder(lines: seq<string>, lines': seq<string>)
    requires multiset(lines) == multiset(lines')
    ensures Part1(lines).Ok? <==> Part1(lines').Ok?
    ensures Part1(lines).Ok? ==> Part1(lines) == Part1(lines')
  {
    if ParseColumns(lines).Ok? {
      forall i | 0 <= i < |lines'|
        ensures ParseLine(lines'[i]).Ok?
      {
        assert lines'[i] in multiset(lines);
        var j :| 0 <= j < |lines| && lines[j] == lines'[i];
      }
    } else if ParseColumns(lines').Ok? {
      forall i | 0 <= i < |lines|
        ensures ParseLine(lines[i]).Ok?
      {
        assert lines[i] in multiset(lines');
        var j :| 0 <= j < |lines'| && lines'[j] == lines[i];
      }
    }
    if ParseColumns(lines).Ok? {
      ColumnsAreMaps(lines);
      ColumnsAreMaps(lines');
      MapPermutation(ParseLine, lines, lines');
      var parsed, parsed' := Map(ParseLine, lines), Map(ParseLine, lines');
      MapPermutation(LeftOf, parsed, parsed');
      MapPermutation(RightOf, parsed, parsed');
      var (left, right) := ParseColumns(lines).value;
      var (left', right') := ParseColumns(lines').value;
      TotalDistancePermutation(left, right, left', right');
    }
  }

  /* ---------------------------------------------------------------- part 2 */

  function Below(l: int): int -> bool {
    x => x < l
  }

  function Above(l: int): int -> bool {
    x => x > l
  }

  /**
   One step of the part 2 fold: `count_below` on the sorted right column,
   `count_above` on its reverse, and `l` times `len - (below + above)` when that
   difference is positive. `len` is the length of the LEFT column, as in the source;
   when it equals the right column's length the step is `l` times the number of
   occurrences of `l` on the right.
   */
  function Contribution(l: int, sorted: seq<int>, inverted: seq<int>, len: nat): (c: int)
    requires Sorted(sorted) && inverted == Reverse(sorted)
    ensures len == |sorted| ==> c == l * multiset(sorted)[l]
  {
    PartitionPointsCount(l, sorted, inverted);
    var below := PartitionPoint(sorted, Below(l));
    var above := PartitionPoint(inverted, Above(l));
    if above + below < len then l * (len - (above + below)) else 0
  }

  /** The two partition points leave between them exactly the occurrences of `l`. */
  lemma PartitionPointsCount(l: int, sorted: seq<int>, inverted: seq<int>)
    requires Sorted(sorted) && inverted == Reverse(sorted)
    ensures Partitioned(sorted, Below(l)) && Partitioned(inverted, Above(l))
    ensures var below := PartitionPoint(sorted, Below(l));
      var above := PartitionPoint(inverted, Above(l));
      multiset(sorted)[l] == if above + below <= |sorted| then |sorted| - (above + below) else 0
  {
    SortedPartitioned(l, sorted, inverted);
    var below := PartitionPoint(sorted, Below(l));
    var above := PartitionPoint(inverted, Above(l));
    AboveFromEnd(l, sorted, inverted, above);
    OccurrencesBetween(sorted, l, below, |sorted| - above);
  }

  /** A sorted column is partitioned by `< l`, and its reverse by `> l`. */
  lemma SortedPartitioned(l: int, sorted: seq<int>, inverted: seq<int>)
    requires Sorted(sorted) && inverted == Reverse(sorted)
    ensures Partitioned(sorted, Below(l)) && Partitioned(inverted, Above(l))
  {
    forall i, j | 0 <= i < j < |inverted| && Above(l)(inverted[j])
      ensures Above(l)(inverted[i])
    {
      assert inverted[i] == sorted[|sorted| - 1 - i] && inverted[j] == sorted[|sorted| - 1 - j];
    }
  }

  /** The partition point of the reversed column counts the elements above `l` from the end. */
  lemma AboveFromEnd(l: int, sorted: seq<int>, inverted: seq<int>, above: nat)
    requires inverted == Reverse(sorted) && above <= |inverted|
    requires forall i :: 0 <= i < above ==> Above(l)(inverted[i])
    requires forall i :: above <= i < |inverted| ==> !Above(l)(inverted[i])
    ensures forall i :: |sorted| - above <= i < |sorted| ==> sorted[i] > l
    ensures forall i :: 0 <= i < |sorted| - above ==> sorted[i] <= l
  {
    var n := |sorted|;
    forall i | n - above <= i < n
      ensures sorted[i] > l
    {
      assert Above(l)(inverted[n - 1 - i]);
    }
    forall i | 0 <= i < n - above
      ensures sorted[i] <= l
    {
      assert !Above(l)(inverted[n - 1 - i]);
    }
  }

  /**
   In a sequence whose elements before `lo` are below `l`, from `lo` on at least `l`,
   before `hi` at most `l` and from `hi` on above `l`, `l` occurs exactly `hi - lo`
   times (and not at all when `hi < lo`).
   */
  lemma OccurrencesBetween(s: seq<int>, l: int, lo: int, hi: int)
    requires Sorted(s) && 0 <= lo <= |s| && 0 <= hi <= |s|
    requires forall i :: 0 <= i < lo ==> s[i] < l
    requires forall i :: lo <= i < |s| ==> s[i] >= l
    requires forall i :: hi <= i < |s| ==> s[i] > l
    requires forall i :: 0 <= i < hi ==> s[i] <= l
    ensures multiset(s)[l] == if lo <= hi then hi - lo else 0
  {
    var h := if hi < lo then lo else hi;
    assert s == s[..lo] + s[lo..h] + s[h..];
    NotIn(s[..lo], l);
    NotIn(s[h..], l);
    AllEqual(s[lo..h], l);
  }

  lemma NotIn(s: seq<int>, l: int)
    requires forall i :: 0 <= i < |s| ==> s[i] != l
    ensures multiset(s)[l] == 0
  {
  }

  lemma {:induction false} AllEqual(s: seq<int>, l: int)
    requires forall i :: 0 <= i < |s| ==> s[i] == l
    ensures multiset(s)[l] == |s|
  {
    if s != [] {
      assert s == [l] + s[1..];
      AllEqual(s[1..], l);
    }
  }

  function SimilarityFold(left: seq<int>, sorted: seq<int>, inverted: seq<int>, len: nat): int
    requires Sorted(sorted) && inverted == Reverse(sorted)
  {
    if left == [] then 0
    else Contribution(left[0], sorted, inverted, len) + SimilarityFold(left[1..], sorted, inverted, len)
  }

  /** Part 2's computation on the two columns. */
  function SimilarityScore(left: seq<int>, right: seq<int>): int
  {
    var sorted := Sort(right);
    SimilarityFold(left, sorted, Reverse(sorted), |left|)
  }

  /** `day1part2`. */
  function Part2(lines: seq<string>): (r: Result<int>)
    ensures r.Ok? <==> ParseColumns(lines).Ok?
  {
    match ParseColumns(lines)
    case Err(e) => Err(e)
    case Ok((left, right)) => Ok(SimilarityScore(left, right))
  }

  /** Each left value times the number of its occurrences in the right column, summed. */
  function WeightedOccurrences(left: seq<int>, right: seq<int>): int
  {
    if left == [] then 0 else left[0] * multiset(right)[left[0]] + WeightedOccurrences(left[1..], right)
  }

  lemma {:induction false} SimilarityFoldCounts(left: seq<int>, sorted: seq<int>, len: nat, right: seq<int>)
    requires Sorted(sorted) && len == |sorted| && multiset(sorted) == multiset(right)
    ensures SimilarityFold(left, sorted, Reverse(sorted), len) == WeightedOccurrences(left, right)
    decreases |left|
  {
    if left != [] {
      SimilarityFoldCounts(left[1..], sorted, len, right);
    }
  }

  /** On columns of equal length the partition-point arithmetic counts occurrences exactly. */
  lemma SimilarityScoreCounts(left: seq<int>, right: seq<int>)
    requires |left| == |right|
    ensures SimilarityScore(left, right) == WeightedOccurrences(left, right)
  {
    SimilarityFoldCounts(left, Sort(right), |left|, right);
  }

  /** Part 2's value is the occurrence-weighted sum over the parsed columns. */
  lemma Part2IsWeightedOccurrences(lines: seq<string>)
    requires ParseColumns(lines).Ok?
    ensures var (left, right) := ParseColumns(lines).value;
            Part2(lines) == Ok(WeightedOccurrences(left, right))
  {
    var (left, right) := ParseColumns(lines).value;
    SimilarityScoreCounts(left, right);
  }

  /** A left value that never occurs in the right column adds nothing. */
  lemma AbsentValueAddsNothing(l: int, left: seq<int>, right: seq<int>)
    requires l !in right
    ensures WeightedOccurrences([l] + left, right) == WeightedOccurrences(left, right)
  {
    assert ([l] + left)[1..] == left;
  }
}
