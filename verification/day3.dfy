/**
 Day 3, a tolerant scanner for `mul(a,b)`, `do()` and `don't()` instructions
 buried in noise. Part 1 sums the products of every well-formed `mul`; part 2
 sums only those that come while multiplication is switched on.
 */
module Day3 {
  import opened Parsing

  /** `Mul(u32, u32)`. */
  datatype Mul = Mul(x: nat, y: nat)

  /** `Instruction`: the `Mul` variant is `Multiply` here, so as not to clash with the type. */
  datatype Instruction = Do | Dont | Multiply(mul: Mul)

  /** A successful parse: the unconsumed remainder and the value read. */
  datatype Parsed<T> = Parsed(rest: string, value: T)

  const MulTag: string := "mul("
  const DoTag: string := "do()"
  const DontTag: string := "don't()"

  /** One past the largest `u32`. */
  const U32Limit: nat := 0x1_0000_0000

  /* ---------------------------------------------------------------- text helpers */

  /** `p` occurs in `s` starting at index `j`. */
  predicate Occurs(s: string, p: string, j: int) {
    0 <= j && j + |p| <= |s| && s[j..j + |p|] == p
  }

  predicate Contains(s: string, p: string) {
    exists j :: 0 <= j <= |s| - |p| && Occurs(s, p, j)
  }

  predicate StartsWith(s: string, p: string) {
    |p| <= |s| && s[..|p|] == p
  }

  /** The remainder `r` is what is left of `s` after some prefix was consumed. */
  predicate SuffixOf(r: string, s: string) {
    |r| <= |s| && s[|s| - |r|..] == r
  }

  lemma ContainsSuffix(s: string, p: string, k: nat)
    requires k <= |s| && Contains(s[k..], p)
    ensures Contains(s, p)
  {
    var j :| 0 <= j <= |s| - k - |p| && Occurs(s[k..], p, j);
    assert s[k..][j..j + |p|] == s[k + j..k + j + |p|];
    assert Occurs(s, p, k + j);
  }

  /* ---------------------------------------------------------------- nom primitives */

  /** `tag(t)`: the input must start with `t`, which is consumed. */
  function Tag(s: string, t: string): (r: Option<string>)
    ensures r.Some? <==> StartsWith(s, t)
    ensures r.Some? ==> s == t + r.value
  {
    if StartsWith(s, t) then
      assert s == s[..|t|] + s[|t|..];
      Some(s[|t|..])
    else None
  }

  /** Number of leading decimal digits. */
  function DigitRun(s: string): (n: nat)
    ensures n <= |s| && AllDigits(s[..n])
    ensures n < |s| ==> !IsDigit(s[n])
  {
    if s == [] || !IsDigit(s[0]) then 0
    else
      var n := 1 + DigitRun(s[1..]);
      assert s[..n] == [s[0]] + s[1..][..n - 1];
      n
  }

  lemma {:induction false} DigitRunOf(d: string, rest: string)
    requires AllDigits(d)
    requires rest == [] || !IsDigit(rest[0])
    ensures DigitRun(d + rest) == |d|
  {
    if d != [] {
      assert (d + rest)[1..] == d[1..] + rest;
      DigitRunOf(d[1..], rest);
    } else {
      assert d + rest == rest;
    }
  }

  /**
   `character::complete::u32`: a non-empty, maximal run of decimal digits (no sign),
   rejected when its value does not fit in 32 bits.
   */
  function TakeU32(s: string): (r: Option<Parsed<nat>>)
    ensures r.Some? ==> var n := |s| - |r.value.rest|;
      && 0 < n && SuffixOf(r.value.rest, s) && AllDigits(s[..n])
      && r.value.value == DigitsValue(s[..n]) < U32Limit
      && (r.value.rest == [] || !IsDigit(r.value.rest[0]))
    ensures s == [] || !IsDigit(s[0]) ==> r.None?
    ensures r.None? <==> DigitRun(s) == 0 || DigitsValue(s[..DigitRun(s)]) >= U32Limit
  {
    var n := DigitRun(s);
    if n == 0 then None
    else
      var v := DigitsValue(s[..n]);
      if v < U32Limit then Some(Parsed(s[n..], v)) else None
  }

  /** Any run of digits worth less than 2^32, leading zeros included, is read up to the next non-digit. */
  lemma TakeU32Digits(d: string, rest: string)
    requires d != [] && AllDigits(d) && DigitsValue(d) < U32Limit
    requires rest == [] || !IsDigit(rest[0])
    ensures TakeU32(d + rest) == Some(Parsed(rest, DigitsValue(d)))
  {
    DigitRunOf(d, rest);
    assert (d + rest)[..|d|] == d;
    assert (d + rest)[|d|..] == rest;
  }

  /** A rendered number below 2^32, followed by a non-digit, reads back as itself. */
  lemma TakeU32Show(n: nat, rest: string)
    requires n < U32Limit
    requires rest == [] || !IsDigit(rest[0])
    ensures TakeU32(NatDigits(n) + rest) == Some(Parsed(rest, n))
  {
    NatDigitsValue(n);
    TakeU32Digits(NatDigits(n), rest);
  }

  /** A run of digits worth 2^32 or more is rejected. */
  lemma TakeU32Overflow(d: string, rest: string)
    requires d != [] && AllDigits(d) && DigitsValue(d) >= U32Limit
    requires rest == [] || !IsDigit(rest[0])
    ensures TakeU32(d + rest).None?
  {
    DigitRunOf(d, rest);
    assert (d + rest)[..|d|] == d;
  }

  /* ---------------------------------------------------------------- mul arguments */

  /** `tuple((u32, tag(","), u32, tag(")")))`: the arguments after `mul(`. */
  function MulArgs(s: string): (r: Option<Parsed<Mul>>)
    ensures r.Some? ==> |r.value.rest| + 4 <= |s| && SuffixOf(r.value.rest, s)
    ensures r.Some? ==> r.value.value.x < U32Limit && r.value.value.y < U32Limit
  {
    match TakeU32(s)
    case None => None
    case Some(a) =>
      match Tag(a.rest, ",")
      case None => None
      case Some(r1) =>
        match TakeU32(r1)
        case None => None
        case Some(b) =>
          match Tag(b.rest, ")")
          case None => None
          case Some(r2) => Some(Parsed(r2, Mul(a.value, b.value)))
  }

  /**
   Two digit runs worth less than 2^32, leading zeros included, as `X,Y)` followed by
   anything parse to `Mul(X, Y)` and stop right after the `)`.
   */
  lemma MulArgsDigits(da: string, db: string, tail: string)
    requires da != [] && AllDigits(da) && DigitsValue(da) < U32Limit
    requires db != [] && AllDigits(db) && DigitsValue(db) < U32Limit
    ensures MulArgs(da + "," + db + ")" + tail) == Some(Parsed(tail, Mul(DigitsValue(da), DigitsValue(db))))
  {
    ArgsText(da, db, tail);
    MulArgsSteps(da, db, tail);
  }

  /** `a,b)` followed by anything parses to `Mul(a, b)` and stops right after the `)`. */
  lemma MulArgsShow(a: nat, b: nat, tail: string)
    requires a < U32Limit && b < U32Limit
    ensures MulArgs(NatDigits(a) + "," + NatDigits(b) + ")" + tail) == Some(Parsed(tail, Mul(a, b)))
  {
    NatDigitsValue(a);
    NatDigitsValue(b);
    MulArgsDigits(NatDigits(a), NatDigits(b), tail);
  }

  /** Leading zeros are read: `07,3)` is `Mul(7, 3)`. */
  lemma MulArgsLeadingZero(da: string, db: string)
    requires da == "07" && db == "3"
    ensures MulArgs(da + "," + db + ")") == Some(Parsed("", Mul(7, 3)))
  {
    LeadingZeroValue(da);
    assert da + "," + db + ")" == da + "," + db + ")" + "";
    MulArgsDigits(da, db, "");
  }

  lemma LeadingZeroValue(da: string)
    requires da == "07"
    ensures AllDigits(da) && DigitsValue(da) == 7
  {
    assert da[..1] == "0" && da[1] == '7';
    assert DigitsValue("0") == DigitsValue("0"[..0]) * 10 + DigitValue('0') == 0;
    assert DigitsValue(da) == DigitsValue(da[..1]) * 10 + DigitValue(da[1]);
  }

  lemma ArgsText(da: string, db: string, tail: string)
    ensures da + "," + db + ")" + tail == da + ("," + (db + (")" + tail)))
  {
  }

  /** The four steps of the argument tuple on `X,Y)`. */
  lemma MulArgsSteps(da: string, db: string, tail: string)
    requires da != [] && AllDigits(da) && DigitsValue(da) < U32Limit
    requires db != [] && AllDigits(db) && DigitsValue(db) < U32Limit
    ensures MulArgs(da + ("," + (db + (")" + tail)))) == Some(Parsed(tail, Mul(DigitsValue(da), DigitsValue(db))))
  {
    var close := ")" + tail;
    var after := db + close;
    var comma := "," + after;
    TakeU32Digits(da, comma);
    TagHead(',', after);
    TakeU32Digits(db, close);
    TagHead(')', tail);
  }

  /** `tag` of a one-character text. */
  lemma TagHead(c: char, rest: string)
    ensures Tag([c] + rest, [c]) == Some(rest)
  {
    assert StartsWith([c] + rest, [c]);
  }

  /** Arguments that do not start with a digit are malformed. */
  lemma MulArgsNeedDigit(s: string)
    requires s == [] || !IsDigit(s[0])
    ensures MulArgs(s).None?
  {
  }

  /** `opt(...)` after `mul(`: on malformed arguments nothing more is consumed. */
  function MulTail(s: string): (p: Parsed<Option<Mul>>)
    ensures SuffixOf(p.rest, s)
    ensures p.value.None? <==> MulArgs(s).None?
    ensures p.value.None? ==> p.rest == s
    ensures p.value.Some? ==> MulArgs(s) == Some(Parsed(p.rest, p.value.value))
  {
    match MulArgs(s)
    case None => Parsed(s, None)
    case Some(args) => Parsed(args.rest, Some(args.value))
  }

  /* ---------------------------------------------------------------- parse_mul */

  /** `take_until("mul(")`: the index of the first `mul(`, if there is one. */
  function FindMul(s: string): (k: Option<nat>)
    ensures k.None? <==> !Contains(s, MulTag)
    ensures k.Some? ==> Occurs(s, MulTag, k.value)
    ensures k.Some? ==> forall j :: 0 <= j < k.value ==> !Occurs(s, MulTag, j)
  {
    if |s| < 4 then None
    else if s[..4] == MulTag then
      assert Occurs(s, MulTag, 0) by {
        assert s[0..4] == s[..4];
      }
      Some(0)
    else
      assert !Occurs(s, MulTag, 0) by {
        assert s[0..4] == s[..4];
      }
      match FindMul(s[1..])
      case None =>
        assert !Contains(s, MulTag) by {
          forall j | 1 <= j <= |s| - 4
            ensures !Occurs(s, MulTag, j)
          {
            OccursShift(s, MulTag, j);
          }
        }
        None
      case Some(k) =>
        OccursShift(s, MulTag, k + 1);
        forall j | 1 <= j < k + 1
          ensures !Occurs(s, MulTag, j)
        {
          OccursShift(s, MulTag, j);
        }
        Some(k + 1)
  }

  /** An occurrence at `j >= 1` is an occurrence at `j - 1` in the tail. */
  lemma OccursShift(s: string, p: string, j: int)
    requires s != [] && j >= 1
    ensures Occurs(s, p, j) <==> Occurs(s[1..], p, j - 1)
  {
    if j + |p| <= |s| {
      assert s[1..][j - 1..j - 1 + |p|] == s[j..j + |p|];
    }
  }

  /**
   `parse_mul`: skip to the first `mul(` and consume it, then read the arguments if
   they are well formed. Without any `mul(` the parser fails.
   */
  function ParseMul(s: string): (r: Option<Parsed<Option<Mul>>>)
    ensures r.None? <==> !Contains(s, MulTag)
    ensures r.Some? ==> |r.value.rest| + 4 <= |s| && SuffixOf(r.value.rest, s)
  {
    match FindMul(s)
    case None => None
    case Some(k) =>
      var t := MulTail(s[k + 4..]);
      assert s[k + 4..][|s[k + 4..]| - |t.rest|..] == s[|s| - |t.rest|..];
      Some(t)
  }

  /** The first `mul(` of `noise + "mul(" + rest` is the one after the noise. */
  lemma FindMulAfterNoise(noise: string, rest: string)
    requires !Contains(noise, MulTag)
    ensures FindMul(noise + MulTag + rest) == Some(|noise|)
  {
    var s := noise + MulTag + rest;
    var n := |noise|;
    assert s[n..n + 4] == MulTag;
    assert Occurs(s, MulTag, n);
    forall j | 0 <= j < n
      ensures !Occurs(s, MulTag, j)
    {
      if j + 4 <= n {
        assert s[j..j + 4] == noise[j..j + 4];
        assert !Occurs(noise, MulTag, j);
      } else {
        assert s[j..j + 4][n - j] == s[n] == 'm';
      }
    }
  }

  /** `parse_mul` on noise, a well-formed `mul(a,b)` and a tail. */
  lemma ParseMulWellFormed(noise: string, a: nat, b: nat, tail: string)
    requires !Contains(noise, MulTag)
    requires a < U32Limit && b < U32Limit
    ensures ParseMul(noise + MulTag + NatDigits(a) + "," + NatDigits(b) + ")" + tail)
         == Some(Parsed(tail, Some(Mul(a, b))))
  {
    var args := NatDigits(a) + "," + NatDigits(b) + ")" + tail;
    var s := noise + MulTag + args;
    assert s == noise + MulTag + NatDigits(a) + "," + NatDigits(b) + ")" + tail;
    FindMulAfterNoise(noise, args);
    assert s[|noise| + 4..] == args;
    MulArgsShow(a, b, tail);
  }

  /** `parse_mul` on noise, `mul(` and malformed arguments: only `mul(` is consumed. */
  lemma ParseMulMalformed(noise: string, tail: string)
    requires !Contains(noise, MulTag)
    requires MulArgs(tail).None?
    ensures ParseMul(noise + MulTag + tail) == Some(Parsed(tail, None))
  {
    FindMulAfterNoise(noise, tail);
    assert (noise + MulTag + tail)[|noise| + 4..] == tail;
  }

  /** A character that does not start `mul(` is skipped by `parse_mul` without effect. */
  lemma ParseMulSkip(s: string)
    requires s != [] && !StartsWith(s, MulTag)
    ensures ParseMul(s) == ParseMul(s[1..])
  {
    if |s| >= 4 {
      assert s[..4] != MulTag;
      var k := FindMul(s[1..]);
      if k.Some? {
        assert s[k.value + 1 + 4..] == s[1..][k.value + 4..];
      }
    } else {
      assert !Contains(s, MulTag) && !Contains(s[1..], MulTag);
    }
  }

  /* ---------------------------------------------------------------- parse_inst */

  /**
   `parse_inst`: `mul(` (with or without well-formed arguments), `do()` or `don't()`
   at the current position; otherwise one character is skipped. Fails only at the
   end of the input.
   */
  function ParseInst(s: string): (r: Option<Parsed<Option<Instruction>>>)
    ensures r.None? <==> s == []
    ensures r.Some? ==> |r.value.rest| < |s| && SuffixOf(r.value.rest, s)
    ensures StartsWith(s, DoTag) <==> r.Some? && r.value.value == Some(Do)
    ensures StartsWith(s, DontTag) <==> r.Some? && r.value.value == Some(Dont)
    ensures StartsWith(s, DoTag) ==> r.value.rest == s[4..]
    ensures StartsWith(s, DontTag) ==> r.value.rest == s[7..]
    ensures r.Some? && r.value.value.Some? && r.value.value.value.Multiply? ==>
      StartsWith(s, MulTag) && MulArgs(s[4..]) == Some(Parsed(r.value.rest, r.value.value.value.mul))
    ensures StartsWith(s, MulTag) && MulArgs(s[4..]).Some? ==>
      r == Some(Parsed(MulArgs(s[4..]).value.rest, Some(Multiply(MulArgs(s[4..]).value.value))))
    ensures StartsWith(s, MulTag) && MulArgs(s[4..]).None? ==> r == Some(Parsed(s[4..], None))
    ensures s != [] && !StartsWith(s, MulTag) && !StartsWith(s, DoTag) && !StartsWith(s, DontTag) ==>
      r == Some(Parsed(s[1..], None))
  {
    TagHeads(s);
    if StartsWith(s, MulTag) then
      var t := MulTail(s[4..]);
      assert s[4..][|s[4..]| - |t.rest|..] == s[|s| - |t.rest|..];
      Some(Parsed(t.rest, if t.value.Some? then Some(Multiply(t.value.value)) else None))
    else if StartsWith(s, DoTag) then
      Some(Parsed(s[4..], Some(Do)))
    else if StartsWith(s, DontTag) then
      Some(Parsed(s[7..], Some(Dont)))
    else if s == [] then
      None
    else
      Some(Parsed(s[1..], None))
  }

  /** The three tags differ in their first or third character, so at most one of them matches. */
  lemma TagHeads(s: string)
    ensures StartsWith(s, MulTag) ==> s[0] == 'm'
    ensures StartsWith(s, DoTag) ==> s[0] == 'd' && s[2] == '('
    ensures StartsWith(s, DontTag) ==> s[0] == 'd' && s[2] == 'n'
  {
    if StartsWith(s, MulTag) {
      assert s[0] == s[..4][0];
    }
    if StartsWith(s, DoTag) {
      assert s[0] == s[..4][0] && s[2] == s[..4][2];
    }
    if StartsWith(s, DontTag) {
      assert s[0] == s[..7][0] && s[2] == s[..7][2];
    }
  }

  /** On `mul(` both parsers read the same arguments and leave the same remainder. */
  lemma ParseInstAgreesOnMul(s: string)
    requires StartsWith(s, MulTag)
    ensures ParseMul(s).Some?
    ensures ParseInst(s).value.rest == ParseMul(s).value.rest
    ensures ParseInst(s).value.value.Some? <==> ParseMul(s).value.value.Some?
    ensures ParseMul(s).value.value.Some? ==> ParseInst(s).value.value == Some(Multiply(ParseMul(s).value.value.value))
  {
    assert Occurs(s, MulTag, 0);
  }

  /* ---------------------------------------------------------------- many0 */

  /**
   `many0(parse_mul)`: apply `parse_mul` until it fails. Each round consumes at
   least `mul(`, and there is a round exactly when some `mul(` is left.
   */
  function ManyMul(s: string): (ms: seq<Option<Mul>>)
    ensures 4 * |ms| <= |s|
    ensures ms == [] <==> !Contains(s, MulTag)
    decreases |s|
  {
    match ParseMul(s)
    case None => []
    case Some(p) => [p.value] + ManyMul(p.rest)
  }

  /**
   `many0(parse_inst)`: apply `parse_inst` until the input is used up. Each round
   consumes at least one character.
   */
  function ManyInst(s: string): (insts: seq<Option<Instruction>>)
    ensures |insts| <= |s|
    ensures insts == [] <==> s == []
    decreases |s|
  {
    match ParseInst(s)
    case None => []
    case Some(p) => [p.value] + ManyInst(p.rest)
  }

  /** `filter_map(|f| *f)`: the present values, in order. */
  function Somes<T(!new)>(xs: seq<Option<T>>): (ys: seq<T>)
    ensures |ys| <= |xs|
    ensures forall y :: y in ys <==> Some(y) in xs
  {
    if xs == [] then []
    else
      var tail := Somes(xs[1..]);
      assert xs == [xs[0]] + xs[1..];
      assert forall o :: o in xs <==> o == xs[0] || o in xs[1..];
      if xs[0].Some? then [xs[0].value] + tail else tail
  }

  /** `Somes` keeps every present value as often as it occurs. */
  lemma {:induction false} SomesCount<T(!new)>(xs: seq<Option<T>>, y: T)
    ensures multiset(Somes(xs))[y] == multiset(xs)[Some(y)]
  {
    if xs != [] {
      assert xs == [xs[0]] + xs[1..];
      SomesCount(xs[1..], y);
    }
  }

  /** The `Mul` payloads of a list of instructions, in order. */
  function MulsOf(insts: seq<Instruction>): (ms: seq<Mul>)
    ensures |ms| <= |insts|
    ensures forall m :: m in ms <==> Multiply(m) in insts
  {
    if insts == [] then []
    else
      var tail := MulsOf(insts[1..]);
      assert insts == [insts[0]] + insts[1..];
      assert forall i :: i in insts <==> i == insts[0] || i in insts[1..];
      if insts[0].Multiply? then [insts[0].mul] + tail else tail
  }

  /** `MulsOf` keeps every `mul` payload as often as it occurs. */
  lemma {:induction false} MulsOfCount(insts: seq<Instruction>, m: Mul)
    ensures multiset(MulsOf(insts))[m] == multiset(insts)[Multiply(m)]
  {
    if insts != [] {
      assert insts == [insts[0]] + insts[1..];
      MulsOfCount(insts[1..], m);
    }
  }

  /* ---------------------------------------------------------------- parts */

  function Product(m: Mul): nat {
    m.x * m.y
  }

  /** `fold(0, |acc, mul| acc + mul.0 * mul.1)`. */
  function SumProducts(ms: seq<Mul>): nat
  {
    if ms == [] then 0 else Product(ms[0]) + SumProducts(ms[1..])
  }

  /**
   `day3part1`: the products of the well-formed `mul(X,Y)` found, which are those
   at every position of the text. The parse cannot fail, so the error branch of
   the source is not reachable.
   */
  function Part1(input: string): (n: nat)
    ensures n == ScanProducts(input)
  {
    ManyMulScan(input);
    SumProducts(Somes(ManyMul(input)))
  }

  /** The state threaded through the part 2 fold. */
  datatype Switch = Switch(on: bool, total: nat)

  function Step(st: Switch, inst: Instruction): Switch
  {
    match inst
    case Do => Switch(true, st.total)
    case Dont => Switch(false, st.total)
    case Multiply(m) => Switch(st.on, if st.on then st.total + Product(m) else st.total)
  }

  /** The fold of part 2, from left to right. */
  function Run(insts: seq<Instruction>, st: Switch): Switch
  {
    if insts == [] then st else Run(insts[1..], Step(st, insts[0]))
  }

  /**
   `day3part2`: the fold starts switched on with a zero total, and sums the
   products of the `Mul`s that no `don't()` has switched off.
   */
  function Part2(input: string): (n: nat)
    ensures n == EnabledProducts(Somes(ManyInst(input)))
    ensures n == EnabledProducts(ScanInsts(input))
  {
    ManyInstScan(input);
    RunIsEnabledProducts(Somes(ManyInst(input)));
    Run(Somes(ManyInst(input)), Switch(true, 0)).total
  }

  /* ---------------------------------------------------------------- part 1 lemmas */

  /** Input without any `mul(` contributes nothing. */
  lemma NoMulNoProducts(s: string)
    requires !Contains(s, MulTag)
    ensures ManyMul(s) == [] && Part1(s) == 0
  {
  }

  /** Noise followed by a well-formed `mul(a,b)` adds `a * b` to the rest. */
  lemma Part1WellFormed(noise: string, a: nat, b: nat, tail: string)
    requires !Contains(noise, MulTag)
    requires a < U32Limit && b < U32Limit
    ensures Part1(noise + MulTag + NatDigits(a) + "," + NatDigits(b) + ")" + tail) == a * b + Part1(tail)
  {
    var s := noise + MulTag + NatDigits(a) + "," + NatDigits(b) + ")" + tail;
    ParseMulWellFormed(noise, a, b, tail);
    assert ManyMul(s) == [Some(Mul(a, b))] + ManyMul(tail);
    assert Somes(ManyMul(s)) == [Mul(a, b)] + Somes(ManyMul(tail));
  }

  /** Noise followed by a malformed `mul(` adds nothing; scanning resumes right after `mul(`. */
  lemma Part1Malformed(noise: string, tail: string)
    requires !Contains(noise, MulTag)
    requires MulArgs(tail).None?
    ensures Part1(noise + MulTag + tail) == Part1(tail)
  {
    var s := noise + MulTag + tail;
    ParseMulMalformed(noise, tail);
    assert ManyMul(s) == [None] + ManyMul(tail);
    assert Somes(ManyMul(s)) == Somes(ManyMul(tail));
  }

  /* ---------------------------------------------------------------- part 1, what is summed */

  /** The product of the well-formed `mul(X,Y)` at the head of `s`, or 0 when there is none. */
  function MulAt(s: string): nat
  {
    if StartsWith(s, MulTag) then
      match MulArgs(s[4..])
      case Some(p) => Product(p.value)
      case None => 0
    else 0
  }

  /** Every position of the text that starts a well-formed `mul(X,Y)` adds its product. */
  function ScanProducts(s: string): nat
    decreases |s|
  {
    if s == [] then 0 else MulAt(s) + ScanProducts(s[1..])
  }

  /** Skipping `k` characters in which no `mul(` starts does not change the reference sum. */
  lemma {:induction false} ScanProductsSkip(s: string, k: nat)
    requires k <= |s|
    requires forall j :: 0 <= j < k ==> !StartsWith(s[j..], MulTag)
    ensures ScanProducts(s) == ScanProducts(s[k..])
    decreases k
  {
    if k > 0 {
      assert s[0..] == s;
      forall j | 0 <= j < k - 1
        ensures !StartsWith(s[1..][j..], MulTag)
      {
        assert s[1..][j..] == s[j + 1..];
      }
      ScanProductsSkip(s[1..], k - 1);
      assert s[1..][k - 1..] == s[k..];
    }
  }

  /** `StartsWith` at an offset is an occurrence there. */
  lemma StartsAt(s: string, p: string, j: nat)
    requires j <= |s|
    ensures StartsWith(s[j..], p) <==> Occurs(s, p, j)
  {
    if j + |p| <= |s| {
      assert s[j..][..|p|] == s[j..j + |p|];
    }
  }

  /** `m` and `d` are the first characters of the three tags. */
  predicate StartsTag(c: char) {
    c == 'm' || c == 'd'
  }

  /** No `m` or `d` among the characters consumed from `s` before the remainder `rest`. */
  predicate ConsumesNoTagHead(s: string, rest: string)
    requires |rest| <= |s|
  {
    forall j :: 0 <= j < |s| - |rest| ==> !StartsTag(s[j])
  }

  /** Consuming without a tag head twice in a row consumes without one. */
  lemma ConsumesNoTagHeadChain(s: string, r1: string, r2: string)
    requires SuffixOf(r1, s) && SuffixOf(r2, r1)
    requires ConsumesNoTagHead(s, r1) && ConsumesNoTagHead(r1, r2)
    ensures ConsumesNoTagHead(s, r2)
  {
    forall j | |s| - |r1| <= j < |s| - |r2|
      ensures !StartsTag(s[j])
    {
      assert s[j] == r1[j - (|s| - |r1|)];
    }
  }

  /** A number is digits: no tag head among them. */
  lemma TakeU32HasNoTagHead(s: string)
    requires TakeU32(s).Some?
    ensures ConsumesNoTagHead(s, TakeU32(s).value.rest)
  {
    var n := |s| - |TakeU32(s).value.rest|;
    forall j | 0 <= j < n
      ensures !StartsTag(s[j])
    {
      assert IsDigit(s[..n][j]);
    }
  }

  /** A one-character tag that is not a tag head consumes none. */
  lemma TagHasNoTagHead(s: string, t: string)
    requires t == "," || t == ")"
    requires Tag(s, t).Some?
    ensures ConsumesNoTagHead(s, Tag(s, t).value)
  {
    assert s[0] == t[0];
  }

  /** Well-formed arguments are digits, `,` and `)`: no tag head among them. */
  lemma MulArgsHaveNoTagHead(s: string)
    requires MulArgs(s).Some?
    ensures ConsumesNoTagHead(s, MulArgs(s).value.rest)
  {
    var r1 := Tag(TakeU32(s).value.rest, ",").value;
    var r2 := Tag(TakeU32(r1).value.rest, ")").value;
    assert MulArgs(s).value.rest == r2;
    NumberThenTagHasNoTagHead(s, ",");
    NumberThenTagHasNoTagHead(r1, ")");
    ConsumesNoTagHeadChain(s, r1, r2);
  }

  /** A number followed by `,` or `)` holds no tag head. */
  lemma NumberThenTagHasNoTagHead(s: string, t: string)
    requires t == "," || t == ")"
    requires TakeU32(s).Some? && Tag(TakeU32(s).value.rest, t).Some?
    ensures SuffixOf(Tag(TakeU32(s).value.rest, t).value, s)
    ensures ConsumesNoTagHead(s, Tag(TakeU32(s).value.rest, t).value)
  {
    var a := TakeU32(s).value;
    var r := Tag(a.rest, t).value;
    TakeU32HasNoTagHead(s);
    TagHasNoTagHead(a.rest, t);
    assert SuffixOf(r, a.rest);
    ConsumesNoTagHeadChain(s, a.rest, r);
  }

  /** After the `m` of a `mul(` at the head of `t`, `parse_mul` consumes no other tag head. */
  lemma ConsumedHasNoTagHead(t: string)
    requires StartsWith(t, MulTag)
    ensures SuffixOf(MulTail(t[4..]).rest, t[1..])
    ensures ConsumesNoTagHead(t[1..], MulTail(t[4..]).rest)
  {
    var u := t[4..];
    var rest := MulTail(u).rest;
    forall j | 0 <= j < 3
      ensures !StartsTag(t[1..][j])
    {
      assert t[1..][j] == t[..4][j + 1];
    }
    assert t[1..][3..] == u;
    assert SuffixOf(u, t[1..]) && ConsumesNoTagHead(t[1..], u);
    if MulArgs(u).Some? {
      MulArgsHaveNoTagHead(u);
    }
    ConsumesNoTagHeadChain(t[1..], u, rest);
  }

  /** The noise `parse_mul` skips before the first `mul(` adds nothing to the reference sum. */
  lemma ScanProductsNoise(s: string)
    requires Contains(s, MulTag)
    ensures ScanProducts(s) == ScanProducts(s[FindMul(s).value..])
  {
    var k := FindMul(s).value;
    forall j | 0 <= j < k
      ensures !StartsWith(s[j..], MulTag)
    {
      StartsAt(s, MulTag, j);
    }
    ScanProductsSkip(s, k);
  }

  /** Text without a tag head starts no `mul(`, so the reference sum skips it. */
  lemma ScanProductsSkipNoTagHead(s: string, rest: string)
    requires SuffixOf(rest, s) && ConsumesNoTagHead(s, rest)
    ensures ScanProducts(s) == ScanProducts(rest)
  {
    var m := |s| - |rest|;
    forall j | 0 <= j < m
      ensures !StartsWith(s[j..], MulTag)
    {
      assert s[j..][0] == s[j];
    }
    ScanProductsSkip(s, m);
  }

  /** What `parse_mul` consumes after the `m` of a `mul(` starts no other `mul(`. */
  lemma ScanProductsConsumed(t: string)
    requires StartsWith(t, MulTag)
    ensures ScanProducts(t[1..]) == ScanProducts(MulTail(t[4..]).rest)
  {
    ConsumedHasNoTagHead(t);
    ScanProductsSkipNoTagHead(t[1..], MulTail(t[4..]).rest);
  }

  /** At a `mul(`, the reference sum adds the product found and resumes after what `parse_mul` consumes. */
  lemma ScanProductsAtMul(t: string)
    requires StartsWith(t, MulTag)
    ensures var p := MulTail(t[4..]);
      ScanProducts(t) == (if p.value.Some? then Product(p.value.value) else 0) + ScanProducts(p.rest)
  {
    var p := MulTail(t[4..]);
    assert ScanProducts(t) == MulAt(t) + ScanProducts(t[1..]);
    assert MulAt(t) == if p.value.Some? then Product(p.value.value) else 0;
    ScanProductsConsumed(t);
  }

  /** One round of `parse_mul`: the skipped noise and the consumed `mul(...)` add only the product found. */
  lemma ScanProductsRound(s: string)
    requires Contains(s, MulTag)
    ensures var p := ParseMul(s).value;
      ScanProducts(s) == (if p.value.Some? then Product(p.value.value) else 0) + ScanProducts(p.rest)
  {
    var k := FindMul(s).value;
    ScanProductsNoise(s);
    var t := s[k..];
    StartsAt(s, MulTag, k);
    assert t[4..] == s[k + 4..];
    ScanProductsAtMul(t);
  }

  /** `many0(parse_mul)` sums exactly the products of the reference scan. */
  lemma {:induction false} ManyMulScan(s: string)
    ensures SumProducts(Somes(ManyMul(s))) == ScanProducts(s)
    decreases |s|
  {
    if !Contains(s, MulTag) {
      forall j | 0 <= j < |s|
        ensures !StartsWith(s[j..], MulTag)
      {
        StartsAt(s, MulTag, j);
      }
      ScanProductsSkip(s, |s|);
    } else {
      var p := ParseMul(s).value;
      assert ManyMul(s) == [p.value] + ManyMul(p.rest);
      SomesConcat([p.value], ManyMul(p.rest));
      ScanProductsRound(s);
      ManyMulScan(p.rest);
    }
  }

  /* ---------------------------------------------------------------- part 2, what is read */

  /** The instruction whose tag starts `s`: a well-formed `mul(X,Y)`, `do()` or `don't()`. */
  function InstAt(s: string): Option<Instruction>
  {
    if StartsWith(s, MulTag) then
      match MulArgs(s[4..])
      case Some(p) => Some(Multiply(p.value))
      case None => None
    else if StartsWith(s, DoTag) then Some(Do)
    else if StartsWith(s, DontTag) then Some(Dont)
    else None
  }

  /** Every position of the text, in order, contributes the instruction whose tag starts there. */
  function ScanInsts(s: string): seq<Instruction>
    decreases |s|
  {
    if s == [] then [] else Somes([InstAt(s)]) + ScanInsts(s[1..])
  }

  /** `parse_inst` reads the instruction whose tag starts the text, or `None` for noise. */
  lemma ParseInstIsInstAt(s: string)
    requires s != []
    ensures ParseInst(s).value.value == InstAt(s)
  {
    TagHeads(s);
  }

  /** After its first character, what `parse_inst` consumes holds no tag head. */
  lemma ParseInstConsumesNoTagHead(s: string)
    requires s != []
    ensures SuffixOf(ParseInst(s).value.rest, s[1..])
    ensures ConsumesNoTagHead(s[1..], ParseInst(s).value.rest)
  {
    TagHeads(s);
    var rest := ParseInst(s).value.rest;
    if StartsWith(s, MulTag) {
      ConsumedHasNoTagHead(s);
    } else if StartsWith(s, DoTag) {
      forall j | 0 <= j < 3
        ensures !StartsTag(s[1..][j])
      {
        assert s[1..][j] == s[..4][j + 1];
      }
      assert s[1..][3..] == rest;
    } else if StartsWith(s, DontTag) {
      forall j | 0 <= j < 6
        ensures !StartsTag(s[1..][j])
      {
        assert s[1..][j] == s[..7][j + 1];
      }
      assert s[1..][6..] == rest;
    }
  }

  /** Text without a tag head starts no instruction, so the reference scan skips it. */
  lemma {:induction false} ScanInstsSkipNoTagHead(s: string, rest: string)
    requires SuffixOf(rest, s) && ConsumesNoTagHead(s, rest)
    ensures ScanInsts(s) == ScanInsts(rest)
    decreases |s|
  {
    if |s| > |rest| {
      TagHeads(s);
      assert InstAt(s) == None;
      assert Somes([InstAt(s)]) == [];
      assert s[1..][|s[1..]| - |rest|..] == s[|s| - |rest|..];
      forall j | 0 <= j < |s[1..]| - |rest|
        ensures !StartsTag(s[1..][j])
      {
        assert s[1..][j] == s[j + 1];
      }
      ScanInstsSkipNoTagHead(s[1..], rest);
    } else {
      assert s == s[|s| - |rest|..];
    }
  }

  /** One round of `parse_inst` reads the instruction at the head and nothing the scan would find. */
  lemma ScanInstsRound(s: string)
    requires s != []
    ensures var p := ParseInst(s).value;
      ScanInsts(s) == Somes([p.value]) + ScanInsts(p.rest)
  {
    ParseInstIsInstAt(s);
    ParseInstConsumesNoTagHead(s);
    ScanInstsSkipNoTagHead(s[1..], ParseInst(s).value.rest);
  }

  /** `many0(parse_inst)` reads exactly the instructions of the reference scan, in order. */
  lemma {:induction false} ManyInstScan(s: string)
    ensures Somes(ManyInst(s)) == ScanInsts(s)
    decreases |s|
  {
    if s != [] {
      var p := ParseInst(s).value;
      assert ManyInst(s) == [p.value] + ManyInst(p.rest);
      SomesConcat([p.value], ManyInst(p.rest));
      ScanInstsRound(s);
      ManyInstScan(p.rest);
    }
  }

  /** An instruction whose tag starts at position `j` is in the reference scan. */
  lemma {:induction false} ScanInstsHas(s: string, j: nat)
    requires j < |s| && InstAt(s[j..]).Some?
    ensures InstAt(s[j..]).value in ScanInsts(s)
    decreases j
  {
    if j == 0 {
      assert s[0..] == s;
    } else {
      assert s[1..][j - 1..] == s[j..];
      ScanInstsHas(s[1..], j - 1);
    }
  }

  /* ---------------------------------------------------------------- agreement of the parts */

  lemma SomesConcat<T(!new)>(a: seq<Option<T>>, b: seq<Option<T>>)
    ensures Somes(a + b) == Somes(a) + Somes(b)
  {
    if a == [] {
      assert a + b == b;
    } else {
      assert (a + b)[1..] == a[1..] + b;
    }
  }

  lemma {:induction false} MulsOfConcat(a: seq<Instruction>, b: seq<Instruction>)
    ensures MulsOf(a + b) == MulsOf(a) + MulsOf(b)
  {
    if a == [] {
      assert a + b == b;
    } else {
      assert (a + b)[1..] == a[1..] + b;
      MulsOfConcat(a[1..], b);
    }
  }

  /** Skipping `k` characters in which no `mul(` starts does not change `many0(parse_mul)`. */
  lemma {:induction false} ManyMulSkip(s: string, k: nat)
    requires k <= |s|
    requires forall j :: 0 <= j < k ==> !StartsWith(s[j..], MulTag)
    ensures ManyMul(s) == ManyMul(s[k..])
    decreases k
  {
    if k > 0 {
      assert s[0..] == s;
      ParseMulSkip(s);
      assert ManyMul(s) == ManyMul(s[1..]);
      forall j | 0 <= j < k - 1
        ensures !StartsWith(s[1..][j..], MulTag)
      {
        assert s[1..][j..] == s[j + 1..];
      }
      ManyMulSkip(s[1..], k - 1);
      assert s[1..][k - 1..] == s[k..];
    }
  }

  /** No position inside a `do()` or `don't()` starts a `mul(`. */
  lemma SwitchTagsHoldNoMul(s: string, t: string, j: nat)
    requires t == DoTag || t == DontTag
    requires StartsWith(s, t) && j < |t|
    ensures !StartsWith(s[j..], MulTag)
  {
    assert s[j] == t[j];
    assert s[j..][0] == s[j];
  }

  /**
   `many0(parse_inst)` finds the same `Mul`s, in the same order, as
   `many0(parse_mul)`: the two scanners agree on every product.
   */
  lemma {:induction false} SameMuls(s: string)
    ensures MulsOf(Somes(ManyInst(s))) == Somes(ManyMul(s))
    decreases |s|
  {
    if s == [] {
      assert !Contains(s, MulTag);
    } else {
      var p := ParseInst(s).value;
      SameMuls(p.rest);
      if StartsWith(s, MulTag) {
        SameMulsAtMul(s);
      } else {
        SameMulsElsewhere(s);
      }
    }
  }

  /** The step of `SameMuls` at a `mul(`: both scanners read the same arguments and stop at the same place. */
  lemma SameMulsAtMul(s: string)
    requires StartsWith(s, MulTag)
    requires var p := ParseInst(s).value; MulsOf(Somes(ManyInst(p.rest))) == Somes(ManyMul(p.rest))
    ensures MulsOf(Somes(ManyInst(s))) == Somes(ManyMul(s))
  {
    var p := ParseInst(s).value;
    assert ManyInst(s) == [p.value] + ManyInst(p.rest);
    SomesConcat([p.value], ManyInst(p.rest));
    var insts := Somes(ManyInst(p.rest));
    ParseInstAgreesOnMul(s);
    var q := ParseMul(s).value;
    assert ManyMul(s) == [q.value] + ManyMul(q.rest);
    SomesConcat([q.value], ManyMul(q.rest));
    if q.value.Some? {
      assert Somes(ManyInst(s)) == [Multiply(q.value.value)] + insts;
      assert MulsOf([Multiply(q.value.value)] + insts) == [q.value.value] + MulsOf(insts);
    } else {
      assert Somes(ManyInst(s)) == insts;
    }
  }

  /** The step of `SameMuls` elsewhere: a switch or a skipped character holds no `mul(`. */
  lemma SameMulsElsewhere(s: string)
    requires s != [] && !StartsWith(s, MulTag)
    requires var p := ParseInst(s).value; MulsOf(Somes(ManyInst(p.rest))) == Somes(ManyMul(p.rest))
    ensures MulsOf(Somes(ManyInst(s))) == Somes(ManyMul(s))
  {
    var p := ParseInst(s).value;
    assert ManyInst(s) == [p.value] + ManyInst(p.rest);
    SomesConcat([p.value], ManyInst(p.rest));
    if StartsWith(s, DoTag) || StartsWith(s, DontTag) {
      SwitchSkipsNoMul(s);
      var inst := p.value.value;
      assert Somes(ManyInst(s)) == [inst] + Somes(ManyInst(p.rest));
      assert MulsOf([inst] + Somes(ManyInst(p.rest))) == MulsOf(Somes(ManyInst(p.rest)));
    } else {
      assert p.rest == s[1..] && p.value == None;
      assert s[0..] == s;
      ManyMulSkip(s, 1);
    }
  }

  /** A `do()` or `don't()` holds no `mul(`, so `many0(parse_mul)` reads past it unchanged. */
  lemma SwitchSkipsNoMul(s: string)
    requires StartsWith(s, DoTag) || StartsWith(s, DontTag)
    ensures ParseInst(s).Some? && ParseInst(s).value.value.Some?
    ensures ManyMul(s) == ManyMul(ParseInst(s).value.rest)
  {
    var p := ParseInst(s).value;
    var k := |s| - |p.rest|;
    assert p.rest == s[k..];
    var t := if StartsWith(s, DoTag) then DoTag else DontTag;
    forall j | 0 <= j < k
      ensures !StartsWith(s[j..], MulTag)
    {
      SwitchTagsHoldNoMul(s, t, j);
    }
    ManyMulSkip(s, k);
  }

  /* ---------------------------------------------------------------- part 2 lemmas */

  /** The switch after a sequence of instructions: the most recent `do()`/`don't()` wins. */
  function LastToggleOn(insts: seq<Instruction>): bool
  {
    if insts == [] then true
    else
      match insts[|insts| - 1]
      case Do => true
      case Dont => false
      case Multiply(_) => LastToggleOn(insts[..|insts| - 1])
  }

  /** Products of the `Mul`s whose most recent preceding toggle is not `don't()`. */
  function EnabledProducts(insts: seq<Instruction>): nat
  {
    if insts == [] then 0
    else
      var init := insts[..|insts| - 1];
      var last := insts[|insts| - 1];
      EnabledProducts(init) + (if last.Multiply? && LastToggleOn(init) then Product(last.mul) else 0)
  }

  lemma {:induction false} RunSnoc(insts: seq<Instruction>, x: Instruction, st: Switch)
    ensures Run(insts + [x], st) == Step(Run(insts, st), x)
  {
    if insts == [] {
      assert insts + [x] == [x];
    } else {
      assert (insts + [x])[1..] == insts[1..] + [x];
      RunSnoc(insts[1..], x, Step(st, insts[0]));
    }
  }

  /** The part 2 fold computes the switch of the latest toggle and the enabled products. */
  lemma {:induction false} RunIsEnabledProducts(insts: seq<Instruction>)
    ensures Run(insts, Switch(true, 0)) == Switch(LastToggleOn(insts), EnabledProducts(insts))
    decreases |insts|
  {
    if insts != [] {
      var init := insts[..|insts| - 1];
      var last := insts[|insts| - 1];
      assert insts == init + [last];
      RunIsEnabledProducts(init);
      RunSnoc(init, last, Switch(true, 0));
    }
  }

  /** Switching can only drop products: the total never exceeds the sum of all of them. */
  lemma {:induction false} RunAtMostAll(insts: seq<Instruction>, st: Switch)
    ensures Run(insts, st).total <= st.total + SumProducts(MulsOf(insts))
    ensures Dont !in insts && st.on ==> Run(insts, st).total == st.total + SumProducts(MulsOf(insts))
  {
    if insts != [] {
      assert insts == [insts[0]] + insts[1..];
      RunAtMostAll(insts[1..], Step(st, insts[0]));
      if insts[0].Multiply? {
        assert MulsOf(insts) == [insts[0].mul] + MulsOf(insts[1..]);
      }
    }
  }

  /** A `Dont` is only produced where the input holds `don't()`. */
  lemma {:induction false} DontNeedsTag(s: string)
    requires Dont in Somes(ManyInst(s))
    ensures Contains(s, DontTag)
    decreases |s|
  {
    var p := ParseInst(s).value;
    assert ManyInst(s) == [p.value] + ManyInst(p.rest);
    SomesConcat([p.value], ManyInst(p.rest));
    if p.value == Some(Dont) {
      assert Occurs(s, DontTag, 0);
    } else {
      assert Dont in Somes(ManyInst(p.rest));
      DontNeedsTag(p.rest);
      ContainsSuffix(s, DontTag, |s| - |p.rest|);
    }
  }

  /** Conversely, every `don't()` in the text is read as a `Dont`. */
  lemma DontTagGivesDont(s: string)
    requires Contains(s, DontTag)
    ensures Dont in Somes(ManyInst(s))
  {
    var j :| 0 <= j <= |s| - |DontTag| && Occurs(s, DontTag, j);
    StartsAt(s, DontTag, j);
    TagHeads(s[j..]);
    assert InstAt(s[j..]) == Some(Dont);
    ScanInstsHas(s, j);
    ManyInstScan(s);
  }

  /** Part 2 never exceeds part 1, and equals it when the input holds no `don't()`. */
  lemma Part2AtMostPart1(input: string)
    ensures Part2(input) <= Part1(input)
    ensures !Contains(input, DontTag) ==> Part2(input) == Part1(input)
  {
    var insts := Somes(ManyInst(input));
    SameMuls(input);
    RunAtMostAll(insts, Switch(true, 0));
    if !Contains(input, DontTag) && Dont in insts {
      DontNeedsTag(input);
    }
  }

  /* ---------------------------------------------------------------- the source's tests */

  lemma ExampleDigits()
    ensures NatDigits(764) == "764" && NatDigits(406) == "406"
  {
    assert DigitChar(7) == '7' && DigitChar(6) == '6' && DigitChar(4) == '4' && DigitChar(0) == '0';
    assert NatDigits(7) == "7";
    assert NatDigits(76) == NatDigits(7) + [DigitChar(6)] == "76";
    assert NatDigits(764) == NatDigits(76) + [DigitChar(4)];
    assert NatDigits(4) == "4";
    assert NatDigits(40) == NatDigits(4) + [DigitChar(0)] == "40";
    assert NatDigits(406) == NatDigits(40) + [DigitChar(6)];
  }

  /** No `mul(` starts inside a string without an `m`. */
  lemma NoMulWithoutM(s: string)
    requires forall i :: 0 <= i < |s| ==> s[i] != 'm'
    ensures !Contains(s, MulTag)
  {
    forall j | 0 <= j <= |s| - 4
      ensures !Occurs(s, MulTag, j)
    {
      assert s[j..j + 4][0] == s[j];
    }
  }

  lemma WholeExampleText()
    ensures "" + MulTag + NatDigits(764) + "," + NatDigits(406) + ")" + "" == "mul(764,406)"
  {
    ExampleDigits();
  }

  lemma NoiseExampleText()
    ensures "asad" + MulTag + NatDigits(764) + "," + NatDigits(406) + ")" + "asdas" == "asadmul(764,406)asdas"
  {
    ExampleDigits();
  }

  lemma BadExampleText()
    ensures "" + MulTag + "BAD,123)asadmul(764,406)asdas" == "mul(BAD,123)asadmul(764,406)asdas"
  {
  }

  lemma ResumeExampleText()
    ensures "BAD,123)asad" + MulTag + NatDigits(764) + "," + NatDigits(406) + ")" + "asdas"
         == "BAD,123)asadmul(764,406)asdas"
  {
    ExampleDigits();
  }

  /** `parse_mul("mul(764,406)")` reads `Mul(764, 406)` and consumes everything. */
  lemma ParseMulWholeExample(s: string)
    requires s == "mul(764,406)"
    ensures ParseMul(s) == Some(Parsed("", Some(Mul(764, 406))))
  {
    ExampleDigits();
    NoMulWithoutM("");
    ParseMulWellFormed("", 764, 406, "");
    WholeExampleText();
  }

  /** `parse_mul("asadmul(764,406)asdas")` leaves `asdas`. */
  lemma ParseMulNoiseExample(s: string)
    requires s == "asadmul(764,406)asdas"
    ensures ParseMul(s) == Some(Parsed("asdas", Some(Mul(764, 406))))
  {
    ExampleDigits();
    NoMulWithoutM("asad");
    ParseMulWellFormed("asad", 764, 406, "asdas");
    NoiseExampleText();
  }

  /**
   `parse_mul` on `mul(BAD,123)...` yields nothing and resumes right after `mul(`;
   the next call then finds `mul(764,406)` and leaves `asdas`.
   */
  lemma ParseMulBadExample(s: string)
    requires s == "mul(BAD,123)asadmul(764,406)asdas"
    ensures ParseMul(s) == Some(Parsed("BAD,123)asadmul(764,406)asdas", None))
    ensures ParseMul(ParseMul(s).value.rest) == Some(Parsed("asdas", Some(Mul(764, 406))))
  {
    var tail := "BAD,123)asadmul(764,406)asdas";
    ParseMulBadStart(s, tail);
    ParseMulResumeExample(tail);
  }

  lemma ParseMulBadStart(s: string, tail: string)
    requires s == "mul(BAD,123)asadmul(764,406)asdas"
    requires tail == "BAD,123)asadmul(764,406)asdas"
    ensures ParseMul(s) == Some(Parsed(tail, None))
  {
    NoMulWithoutM("");
    assert !IsDigit(tail[0]);
    MulArgsNeedDigit(tail);
    ParseMulMalformed("", tail);
    BadExampleText();
  }

  lemma ParseMulResumeExample(s: string)
    requires s == "BAD,123)asadmul(764,406)asdas"
    ensures ParseMul(s) == Some(Parsed("asdas", Some(Mul(764, 406))))
  {
    var noise := "BAD,123)asad";
    NoMulWithoutM(noise);
    ParseMulWellFormed(noise, 764, 406, "asdas");
    ResumeExampleText();
  }

  /** `parse_inst("mul(764,406)")` reads the instruction and consumes everything. */
  lemma ParseInstMulExample(s: string)
    requires s == "mul(764,406)"
    ensures ParseInst(s) == Some(Parsed("", Some(Multiply(Mul(764, 406)))))
  {
    ExampleDigits();
    assert s[..4] == MulTag;
    assert s[4..] == NatDigits(764) + "," + NatDigits(406) + ")" + "";
    MulArgsShow(764, 406, "");
  }

  /** A `don't()` after noise switches off the `mul` that follows it. */
  lemma Part2DontExample(s: string)
    requires s == "xdon't()mul(2,3)"
    ensures Somes(ManyInst(s)) == [Dont, Multiply(Mul(2, 3))]
    ensures Part1(s) == 6 && Part2(s) == 0
  {
    DontExampleInsts(s);
    DontExampleSomes(ManyInst(s));
    DontExampleRun(Somes(ManyInst(s)));
    DontExamplePart1(s);
  }

  lemma DontExampleSomes(insts: seq<Option<Instruction>>)
    requires insts == [None, Some(Dont), Some(Multiply(Mul(2, 3)))]
    ensures Somes(insts) == [Dont, Multiply(Mul(2, 3))]
  {
    assert insts == [None] + [Some(Dont)] + [Some(Multiply(Mul(2, 3)))];
    SomesConcat([None] + [Some(Dont)], [Some(Multiply(Mul(2, 3)))]);
    SomesConcat([None], [Some(Dont)]);
  }

  lemma DontExampleRun(insts: seq<Instruction>)
    requires insts == [Dont, Multiply(Mul(2, 3))]
    ensures Run(insts, Switch(true, 0)).total == 0
  {
    var off := Step(Switch(true, 0), Dont);
    assert off == Switch(false, 0);
    assert Run(insts, Switch(true, 0)) == Run(insts[1..], off);
    assert Run(insts[1..], off) == Run(insts[1..][1..], Step(off, Multiply(Mul(2, 3))));
    assert insts[1..][1..] == [];
  }

  lemma DontExampleInsts(s: string)
    requires s == "xdon't()mul(2,3)"
    ensures ManyInst(s) == [None, Some(Dont), Some(Multiply(Mul(2, 3)))]
  {
    var t, u := "don't()mul(2,3)", "mul(2,3)";
    NoiseExampleStep(s, t);
    ManyInstStep(s);
    DontExampleStep(t, u);
    ManyInstStep(t);
    MulExampleInsts(u);
  }

  lemma ManyInstStep(s: string)
    requires s != []
    ensures ManyInst(s) == [ParseInst(s).value.value] + ManyInst(ParseInst(s).value.rest)
  {
  }

  lemma NoiseExampleStep(s: string, t: string)
    requires s == "xdon't()mul(2,3)" && t == "don't()mul(2,3)"
    ensures ParseInst(s) == Some(Parsed(t, None))
  {
    assert s[0] == 'x';
    TagHeads(s);
    assert s[1..] == t;
  }

  lemma DontExampleStep(t: string, u: string)
    requires t == "don't()mul(2,3)" && u == "mul(2,3)"
    ensures ParseInst(t) == Some(Parsed(u, Some(Dont)))
  {
    assert t[..7] == DontTag && t[7..] == u;
  }

  lemma MulExampleInsts(u: string)
    requires u == "mul(2,3)"
    ensures ManyInst(u) == [Some(Multiply(Mul(2, 3)))]
  {
    assert NatDigits(2) == "2" && NatDigits(3) == "3";
    assert u[..4] == MulTag && u[4..] == NatDigits(2) + "," + NatDigits(3) + ")" + "";
    MulArgsShow(2, 3, "");
    assert ManyInst(u) == [Some(Multiply(Mul(2, 3)))] + ManyInst("");
  }

  lemma DontExamplePart1(s: string)
    requires s == "xdon't()mul(2,3)"
    ensures Part1(s) == 6
  {
    assert NatDigits(2) == "2" && NatDigits(3) == "3";
    assert s == "xdon't()" + MulTag + NatDigits(2) + "," + NatDigits(3) + ")" + "";
    NoMulWithoutM("xdon't()");
    Part1WellFormed("xdon't()", 2, 3, "");
    NoMulNoProducts("");
  }

  /** `parse_inst("do()asadmul(764,406)asdas")` is `Do` and leaves the rest. */
  lemma ParseInstDoExample(s: string)
    requires s == "do()asadmul(764,406)asdas"
    ensures ParseInst(s) == Some(Parsed("asadmul(764,406)asdas", Some(Do)))
  {
    assert s[..4] == DoTag;
    assert s[4..] == "asadmul(764,406)asdas";
  }
}
