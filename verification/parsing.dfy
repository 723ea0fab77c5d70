/**
 Text helpers shared by the solvers of all four days: the ASCII part of Rust's
 `char::is_whitespace`, `str::trim`, `str::split_once`, `str::split_whitespace`,
 decimal digit runs and `<i32 as FromStr>::from_str`. Input text is assumed to be
 ASCII, so one `char` is one byte.
 */
module Parsing {

  datatype Option<T> = None | Some(value: T)

  /** Why parsing an input line failed; either one aborts the whole computation. */
  datatype Error =
    | MissingSeparator(line: string)  // no whitespace character to split the line at
    | BadInteger(token: string)       // a token that is not a decimal i32

  datatype Result<T> = Ok(value: T) | Err(error: Error)

  const I32Min: int := -0x8000_0000
  const I32Max: int := 0x7FFF_FFFF

  predicate InI32(v: int) {
    I32Min <= v <= I32Max
  }

  /* ---------------------------------------------------------------- whitespace */

  /** `char::is_whitespace` on ASCII characters. */
  predicate IsWhitespace(c: char) {
    c == ' ' || c == '\t' || c == '\n' || c == '\U{000B}' || c == '\U{000C}' || c == '\r'
  }

  predicate NoWhitespace(s: string) {
    forall i :: 0 <= i < |s| ==> !IsWhitespace(s[i])
  }

  predicate AllWhitespace(s: string) {
    forall i :: 0 <= i < |s| ==> IsWhitespace(s[i])
  }

  /** Neither end of `s` is a whitespace character (vacuous for the empty string). */
  predicate Trimmed(s: string) {
    s == [] || (!IsWhitespace(s[0]) && !IsWhitespace(s[|s| - 1]))
  }

  /** Number of whitespace characters that start `s`. */
  function LeadingWhitespace(s: string): (n: nat)
    ensures n <= |s| && AllWhitespace(s[..n])
    ensures n < |s| ==> !IsWhitespace(s[n])
  {
    if s == [] || !IsWhitespace(s[0]) then 0
    else
      var n := 1 + LeadingWhitespace(s[1..]);
      assert forall k :: 1 <= k < n ==> s[..n][k] == s[1..][..n - 1][k - 1];
      n
  }

  /** Number of whitespace characters that end `s`. */
  function TrailingWhitespace(s: string): (n: nat)
    ensures n <= |s| && AllWhitespace(s[|s| - n..])
    ensures n < |s| ==> !IsWhitespace(s[|s| - 1 - n])
  {
    if s == [] || !IsWhitespace(s[|s| - 1]) then 0
    else
      var t := s[..|s| - 1];
      var n := 1 + TrailingWhitespace(t);
      assert s[|s| - n..] == t[|t| - (n - 1)..] + [s[|s| - 1]];
      n
  }

  /** `str::trim_start`. */
  function TrimStart(s: string): (r: string)
    ensures |r| <= |s| && r == s[|s| - |r|..]
    ensures AllWhitespace(s[..|s| - |r|])
    ensures r == [] || !IsWhitespace(r[0])
  {
    s[LeadingWhitespace(s)..]
  }

  /** `str::trim_end`. */
  function TrimEnd(s: string): (r: string)
    ensures |r| <= |s| && r == s[..|r|]
    ensures AllWhitespace(s[|r|..])
    ensures r == [] || !IsWhitespace(r[|r| - 1])
  {
    s[..|s| - TrailingWhitespace(s)]
  }

  /** `str::trim`: the slice of `s` left after removing whitespace from both ends. */
  function Trim(s: string): (r: string)
    ensures Trimmed(r)
    ensures exists i :: 0 <= i && i + |r| <= |s| && r == s[i..i + |r|]
                        && AllWhitespace(s[..i]) && AllWhitespace(s[i + |r|..])
  {
    var i := LeadingWhitespace(s);
    var t := s[i..];
    var r := TrimEnd(t);
    assert r == s[i..i + |r|];
    assert s[i + |r|..] == t[|r|..];
    assert Trimmed(r) by {
      assert r == [] || r[0] == t[0];
    }
    r
  }

  lemma {:induction false} LeadingWhitespaceOf(pre: string, t: string)
    requires AllWhitespace(pre)
    requires t == [] || !IsWhitespace(t[0])
    ensures LeadingWhitespace(pre + t) == |pre|
    decreases |pre|
  {
    if pre == [] {
      assert pre + t == t;
    } else {
      assert (pre + t)[1..] == pre[1..] + t;
      LeadingWhitespaceOf(pre[1..], t);
    }
  }

  lemma {:induction false} TrailingWhitespaceOf(t: string, post: string)
    requires AllWhitespace(post)
    requires t == [] || !IsWhitespace(t[|t| - 1])
    ensures TrailingWhitespace(t + post) == |post|
    decreases |post|
  {
    if post == [] {
      assert t + post == t;
    } else {
      assert (t + post)[..|t + post| - 1] == t + post[..|post| - 1];
      TrailingWhitespaceOf(t, post[..|post| - 1]);
    }
  }

  lemma TrimStartPadded(pre: string, t: string)
    requires AllWhitespace(pre)
    requires t == [] || !IsWhitespace(t[0])
    ensures TrimStart(pre + t) == t
  {
    LeadingWhitespaceOf(pre, t);
    assert (pre + t)[|pre|..] == t;
  }

  lemma TrimEndPadded(t: string, post: string)
    requires AllWhitespace(post)
    requires t == [] || !IsWhitespace(t[|t| - 1])
    ensures TrimEnd(t + post) == t
  {
    TrailingWhitespaceOf(t, post);
    assert (t + post)[..|t|] == t;
  }

  /** Trimming removes exactly the whitespace padding around a trimmed core. */
  lemma TrimPadded(pre: string, t: string, post: string)
    requires AllWhitespace(pre) && AllWhitespace(post)
    requires Trimmed(t) && t != []
    ensures Trim(pre + t + post) == t
  {
    assert pre + t + post == pre + (t + post);
    TrimStartPadded(pre, t + post);
    TrimEndPadded(t, post);
  }

  /* ---------------------------------------------------------------- splitting */

  /** Index of the first whitespace character of `s`, if any. */
  function FirstWhitespace(s: string): (r: Option<nat>)
    ensures r.Some? ==> r.value < |s| && IsWhitespace(s[r.value]) && NoWhitespace(s[..r.value])
    ensures r.None? <==> NoWhitespace(s)
  {
    if s == [] then None
    else if IsWhitespace(s[0]) then Some(0)
    else match FirstWhitespace(s[1..])
      case None => None
      case Some(i) => Some(i + 1)
  }

  /** `s.split_once(char::is_whitespace)`: the text before and after the first whitespace character. */
  function SplitOnceWhitespace(s: string): (r: Option<(string, string)>)
    ensures r.None? <==> NoWhitespace(s)
    ensures r.Some? ==> var (a, b) := r.value;
              |a| + 1 + |b| == |s| && s == a + [s[|a|]] + b
              && IsWhitespace(s[|a|]) && NoWhitespace(a)
  {
    match FirstWhitespace(s)
    case None => None
    case Some(i) =>
      assert s == s[..i] + [s[i]] + s[i + 1..];
      Some((s[..i], s[i + 1..]))
  }

  /** Length of the run of non-whitespace characters that starts `s`. */
  function TokenLength(s: string): (n: nat)
    ensures n <= |s| && NoWhitespace(s[..n])
    ensures n < |s| ==> IsWhitespace(s[n])
  {
    match FirstWhitespace(s)
    case None => |s|
    case Some(i) => i
  }

  /** `str::split_whitespace`: the maximal runs of non-whitespace characters, in order. */
  function SplitWhitespace(s: string): (ts: seq<string>)
    ensures forall k :: 0 <= k < |ts| ==> |ts[k]| > 0 && NoWhitespace(ts[k])
    ensures AllWhitespace(s) <==> ts == []
    decreases |s|
  {
    if s == [] then []
    else if IsWhitespace(s[0]) then
      assert AllWhitespace(s) <==> AllWhitespace(s[1..]) by {
        assert forall i :: 1 <= i < |s| ==> s[i] == s[1..][i - 1];
      }
      SplitWhitespace(s[1..])
    else
      var n := TokenLength(s);
      var tail := SplitWhitespace(s[n..]);
      var ts := [s[..n]] + tail;
      forall k | 0 <= k < |ts|
        ensures |ts[k]| > 0 && NoWhitespace(ts[k])
      {
        if k > 0 {
          assert ts[k] == tail[k - 1];
        }
      }
      ts
  }

  /** Tokens each followed by one space; `SplitWhitespace` recovers the tokens. */
  function Unwords(ts: seq<string>): string
  {
    if ts == [] then "" else ts[0] + " " + Unwords(ts[1..])
  }

  lemma {:induction false} SplitUnwords(ts: seq<string>)
    requires forall k :: 0 <= k < |ts| ==> |ts[k]| > 0 && NoWhitespace(ts[k])
    ensures SplitWhitespace(Unwords(ts)) == ts
    decreases |ts|
  {
    if ts == [] {
      assert SplitWhitespace("") == [];
    } else {
      var t, tail := ts[0], ts[1..];
      var rest := Unwords(tail);
      calc {
        SplitWhitespace(Unwords(ts));
        SplitWhitespace(t + " " + rest);
        { SplitTokenSpace(t, rest); }
        [t] + SplitWhitespace(rest);
        { SplitUnwords(tail); }
        [t] + tail;
      }
      assert [t] + tail == ts;
    }
  }

  lemma SplitTokenSpace(t: string, rest: string)
    requires t != [] && NoWhitespace(t)
    ensures SplitWhitespace(t + " " + rest) == [t] + SplitWhitespace(rest)
  {
    var spaced := " " + rest;
    assert t + " " + rest == t + spaced;
    calc {
      SplitWhitespace(t + spaced);
      { SplitToken(t, spaced); }
      [t] + SplitWhitespace(spaced);
      { SkipWhitespace(" ", rest); }
      [t] + SplitWhitespace(rest);
    }
  }

  /** A clean token followed by nothing or by whitespace is split off as the first token. */
  lemma SplitToken(t: string, rest: string)
    requires t != [] && NoWhitespace(t)
    requires rest == [] || IsWhitespace(rest[0])
    ensures SplitWhitespace(t + rest) == [t] + SplitWhitespace(rest)
  {
    var s := t + rest;
    assert TrimStart(s) == s by {
      assert s[0] == t[0];
    }
    assert TokenLength(s) == |t| by {
      TokenLengthOf(t, rest);
    }
    assert s[..|t|] == t;
    assert s[|t|..] == rest;
  }

  lemma TokenLengthOf(t: string, rest: string)
    requires NoWhitespace(t)
    requires rest == [] || IsWhitespace(rest[0])
    ensures TokenLength(t + rest) == |t|
  {
    var s := t + rest;
    assert s[..|t|] == t;
    if |t| < |s| {
      assert s[|t|] == rest[0];
    }
    TokenLengthUnique(s, |t|);
  }

  /** The token length is the only cut with a clean prefix and a whitespace (or nothing) after it. */
  lemma TokenLengthUnique(s: string, m: nat)
    requires m <= |s| && NoWhitespace(s[..m])
    requires m < |s| ==> IsWhitespace(s[m])
    ensures TokenLength(s) == m
  {
  }

  /** Leading whitespace does not change the token list. */
  lemma {:induction false} SkipWhitespace(pre: string, s: string)
    requires AllWhitespace(pre)
    ensures SplitWhitespace(pre + s) == SplitWhitespace(s)
    decreases |pre|
  {
    if pre == [] {
      assert pre + s == s;
    } else {
      assert (pre + s)[0] == pre[0];
      assert (pre + s)[1..] == pre[1..] + s;
      SkipWhitespace(pre[1..], s);
    }
  }

  /* ---------------------------------------------------------------- integers */

  predicate IsDigit(c: char) {
    '0' <= c <= '9'
  }

  predicate AllDigits(s: string) {
    forall i :: 0 <= i < |s| ==> IsDigit(s[i])
  }

  function DigitValue(c: char): nat
    requires IsDigit(c)
  {
    c as int - '0' as int
  }

  function DigitChar(d: nat): (c: char)
    requires d < 10
    ensures IsDigit(c) && DigitValue(c) == d
  {
    ('0' as int + d) as char
  }

  /** The value of a decimal digit string, most significant digit first. */
  function DigitsValue(s: string): nat
    requires AllDigits(s)
  {
    if s == [] then 0 else DigitsValue(s[..|s| - 1]) * 10 + DigitValue(s[|s| - 1])
  }

  /** Shortest decimal rendering of a natural number. */
  function NatDigits(n: nat): (s: string)
    ensures s != [] && AllDigits(s) && Trimmed(s) && NoWhitespace(s)
    ensures |s| > 1 ==> s[0] != '0'
  {
    if n < 10 then [DigitChar(n)] else NatDigits(n / 10) + [DigitChar(n % 10)]
  }

  lemma {:induction false} NatDigitsValue(n: nat)
    ensures DigitsValue(NatDigits(n)) == n
  {
    if n >= 10 {
      var s := NatDigits(n);
      assert s[..|s| - 1] == NatDigits(n / 10);
      NatDigitsValue(n / 10);
    }
  }

  /** `i32`'s `Display`: an optional minus sign followed by the shortest decimal digits. */
  function Show(v: int): (s: string)
    ensures s != [] && Trimmed(s) && NoWhitespace(s)
  {
    if v < 0 then "-" + NatDigits(-v) else NatDigits(v)
  }

  /** An optional `+` or `-` followed by one or more decimal digits. */
  predicate SignedDigits(s: string) {
    s != [] && AllDigits(s[1..]) && (IsDigit(s[0]) || (|s| > 1 && (s[0] == '+' || s[0] == '-')))
  }

  /**
   `<i32 as FromStr>::from_str`: an optional `+` or `-`, then one or more decimal
   digits whose signed value fits in 32 bits; anything else is an error carrying
   the token.
   */
  function ParseI32(s: string): (r: Result<int>)
    ensures r.Ok? ==> InI32(r.value)
    ensures r.Err? ==> r.error == BadInteger(s)
    ensures s == [] ==> r.Err?
    ensures r.Ok? ==> SignedDigits(s)
  {
    var signed := s != [] && (s[0] == '+' || s[0] == '-');
    var digits := if signed then s[1..] else s;
    if digits == [] || !AllDigits(digits) then Err(BadInteger(s))
    else
      var v: int := if s[0] == '-' then -(DigitsValue(digits) as int) else DigitsValue(digits);
      if InI32(v) then Ok(v) else Err(BadInteger(s))
  }

  /** Parsing inverts printing on every 32-bit value. */
  lemma ParseShow(v: int)
    requires InI32(v)
    ensures ParseI32(Show(v)) == Ok(v)
  {
    var s := Show(v);
    if v < 0 {
      var d := NatDigits(-v);
      assert s == "-" + d && s[0] == '-' && s[1..] == d;
      NatDigitsValue(-v);
    } else {
      var d := NatDigits(v);
      assert IsDigit(s[0]);
      NatDigitsValue(v);
    }
  }

  /**
   Every optional sign followed by one or more digits, leading zeros included, is
   accepted exactly when its signed value fits in 32 bits, and then gives that value.
   */
  lemma ParseSignedDigits(sign: string, d: string)
    requires sign == "" || sign == "+" || sign == "-"
    requires d != [] && AllDigits(d)
    ensures var v: int := if sign == "-" then -(DigitsValue(d) as int) else DigitsValue(d);
      ParseI32(sign + d) == if InI32(v) then Ok(v) else Err(BadInteger(sign + d))
  {
    var s := sign + d;
    if sign == "" {
      assert s == d && IsDigit(s[0]);
    } else {
      assert s[0] == sign[0] && s[1..] == d;
    }
  }

  /** `"+5"`, `"007"` and `"-0"` are accepted; one past `i32::MAX` is not. */
  lemma ParseSignedExamples()
    ensures ParseI32("+5") == Ok(5)
    ensures ParseI32("007") == Ok(7)
    ensures ParseI32("-0") == Ok(0)
    ensures ParseI32("2147483648").Err?
  {
    PlusExample("+5");
    LeadingZerosExample("007");
    MinusZeroExample("-0");
    OutOfRangeExample("2147483648");
  }

  lemma PlusExample(s: string)
    requires s == "+5"
    ensures ParseI32(s) == Ok(5)
  {
    assert s == "+" + "5";
    ParseSignedDigits("+", "5");
  }

  lemma LeadingZerosExample(s: string)
    requires s == "007"
    ensures ParseI32(s) == Ok(7)
  {
    assert s == "" + s;
    ParseSignedDigits("", s);
    assert s[..2] == "00" && "00"[..1] == "0";
    assert DigitsValue(s) == DigitsValue("00") * 10 + 7;
    assert DigitsValue("00") == DigitsValue("0") * 10;
  }

  lemma MinusZeroExample(s: string)
    requires s == "-0"
    ensures ParseI32(s) == Ok(0)
  {
    assert s == "-" + "0";
    ParseSignedDigits("-", "0");
  }

  lemma OutOfRangeExample(s: string)
    requires s == "2147483648"
    ensures ParseI32(s).Err?
  {
    ParseSignedDigits("", s);
    assert s == "214748364" + "8";
    assert s[..|s| - 1] == "214748364";
    NineDigitsValue("214748364", 214748364);
  }

  /** The nine leading digits of `i32::MAX + 1` spell their number. */
  lemma NineDigitsValue(d: string, n: nat)
    requires d == "214748364" && n == 214748364
    ensures AllDigits(d) && DigitsValue(d) == n
  {
    var ds := ["2", "21", "214", "2147", "21474", "214748", "2147483", "21474836", "214748364"];
    assert DigitsValue(ds[0]) == 2;
    assert ds[1][..1] == ds[0];
    assert DigitsValue(ds[1]) == 21;
    assert ds[2][..2] == ds[1];
    assert DigitsValue(ds[2]) == 214;
    assert ds[3][..3] == ds[2];
    assert DigitsValue(ds[3]) == 2147;
    assert ds[4][..4] == ds[3];
    assert DigitsValue(ds[4]) == 21474;
    assert ds[5][..5] == ds[4];
    assert DigitsValue(ds[5]) == 214748;
    assert ds[6][..6] == ds[5];
    assert DigitsValue(ds[6]) == 2147483;
    assert ds[7][..7] == ds[6];
    assert DigitsValue(ds[7]) == 21474836;
    assert ds[8][..8] == ds[7];
  }

  /** A token holding a character that is neither a digit nor a leading sign is rejected. */
  lemma ParseRejectsNonDigit(s: string, i: nat)
    requires 0 < i < |s| && !IsDigit(s[i])
    ensures ParseI32(s) == Err(BadInteger(s))
  {
    var signed := s[0] == '+' || s[0] == '-';
    if signed {
      assert s[1..][i - 1] == s[i];
    }
  }
}
