/** Character classes, case folding, digit runs and Java integer parsing,
    as the agency tools use them through java.lang and java.util.regex. */
module Strings {

  datatype Option<T> = None | Some(value: T)

  /** Bounds of a Java `int`. */
  const MaxInt: int := 0x7FFF_FFFF
  const MinInt: int := -0x8000_0000

  /** `\d` in a Java regex without UNICODE_CHARACTER_CLASS: an ASCII digit. */
  predicate IsDigit(c: char) {
    '0' <= c <= '9'
  }

  /** `\w` in a Java regex without UNICODE_CHARACTER_CLASS: `[a-zA-Z_0-9]`. */
  predicate IsWordChar(c: char) {
    'a' <= c <= 'z' || 'A' <= c <= 'Z' || c == '_' || IsDigit(c)
  }

  /** How a pattern compares characters: exactly, with CASE_INSENSITIVE
      (US-ASCII letters only) or with CASE_INSENSITIVE | UNICODE_CASE
      (restricted here to the Latin-1 letters, which covers `à` and `é`). */
  datatype CaseMode = Exact | AsciiFold | Latin1Fold

  function Lower(c: char, mode: CaseMode): (r: char)
    ensures mode == Exact ==> r == c
    ensures 'A' <= c <= 'Z' && mode != Exact ==> 'a' <= r <= 'z' && r as int - c as int == 32
    ensures IsDigit(c) || c == ' ' || ('a' <= c <= 'z') ==> r == c
  {
    if mode != Exact && 'A' <= c <= 'Z' then (c as int + 32) as char
    else if mode == Latin1Fold && 'À' <= c <= 'Þ' && c != '×' then (c as int + 32) as char
    else c
  }

  predicate CharEq(a: char, b: char, mode: CaseMode) {
    Lower(a, mode) == Lower(b, mode)
  }

  /** A text without a lower-case ASCII letter, in either case, holds no
      character equal to it under any mode. */
  lemma NoLetter(x: string, c: char, mode: CaseMode)
    requires 'a' <= c <= 'z'
    requires forall i :: 0 <= i < |x| ==> x[i] != c && x[i] as int != c as int - 32
    ensures forall i :: 0 <= i < |x| ==> !CharEq(x[i], c, mode)
  {
  }

  /** A text without a punctuation character below 'A' holds no character
      equal to it under any mode: folding only ever yields letters. */
  lemma NoSymbol(x: string, c: char, mode: CaseMode)
    requires c < 'A'
    requires forall i :: 0 <= i < |x| ==> x[i] != c
    ensures forall i :: 0 <= i < |x| ==> !CharEq(x[i], c, mode)
  {
  }

  /** `p` matches the beginning of `t`, character by character under `mode`. */
  predicate FoldPrefix(t: string, p: string, mode: CaseMode)
    decreases p
  {
    |p| == 0 || (|t| > 0 && CharEq(t[0], p[0], mode) && FoldPrefix(t[1..], p[1..], mode))
  }

  lemma {:induction false} FoldPrefixExact(t: string, p: string)
    ensures FoldPrefix(t, p, Exact) <==> |p| <= |t| && t[..|p|] == p
    decreases p
  {
    if |p| > 0 && |t| > 0 {
      FoldPrefixExact(t[1..], p[1..]);
      if t[0] == p[0] && |p| <= |t| {
        assert t[..|p|] == [t[0]] + t[1..][..|p| - 1];
        assert p == [p[0]] + p[1..];
      }
    }
  }

  lemma {:induction false} FoldPrefixLength(t: string, p: string, mode: CaseMode)
    requires FoldPrefix(t, p, mode)
    ensures |p| <= |t|
    decreases p
  {
    if |p| > 0 {
      FoldPrefixLength(t[1..], p[1..], mode);
    }
  }

  lemma {:induction false} FoldPrefixAt(t: string, p: string, mode: CaseMode, k: nat)
    requires FoldPrefix(t, p, mode) && k < |p|
    ensures k < |t| && CharEq(t[k], p[k], mode)
    decreases k
  {
    if k > 0 {
      FoldPrefixAt(t[1..], p[1..], mode, k - 1);
    }
  }

  /** A string matches, under any mode, every prefix of itself. */
  lemma {:induction false} FoldPrefixSelf(t: string, p: string, mode: CaseMode)
    requires |p| <= |t| && t[..|p|] == p
    ensures FoldPrefix(t, p, mode)
    decreases p
  {
    if |p| > 0 {
      assert t[1..][..|p| - 1] == p[1..];
      FoldPrefixSelf(t[1..], p[1..], mode);
    }
  }

  /** Matching the beginning of `t` looks at the first |p| characters only. */
  lemma {:induction false} FoldPrefixAppend(t: string, u: string, p: string, mode: CaseMode)
    requires |p| <= |t|
    ensures FoldPrefix(t + u, p, mode) <==> FoldPrefix(t, p, mode)
    decreases p
  {
    if |p| > 0 {
      assert (t + u)[1..] == t[1..] + u;
      FoldPrefixAppend(t[1..], u, p[1..], mode);
    }
  }

  /** The three parts of a concatenation, read back by slicing. */
  lemma SliceParts(u: string, e: string, v: string)
    ensures (u + e + v)[..|u|] == u
    ensures (u + e + v)[|u|..][..|e|] == e
    ensures (u + e + v)[|u| + |e|..] == v
  {
  }

  predicate StartsWith(s: string, p: string) {
    |p| <= |s| && s[..|p|] == p
  }

  predicate EndsWith(s: string, p: string) {
    |p| <= |s| && s[|s| - |p|..] == p
  }

  predicate AllDigits(s: string) {
    forall i :: 0 <= i < |s| ==> IsDigit(s[i])
  }

  /** The decimal value of a run of digits. */
  function DecimalValue(s: string): nat
    requires AllDigits(s)
  {
    if |s| == 0 then 0
    else DecimalValue(s[..|s| - 1]) * 10 + (s[|s| - 1] as int - '0' as int)
  }

  /** End of the maximal digit run that starts at `i` (== i when s[i] is no digit). */
  function RunEnd(s: string, i: nat): (e: nat)
    requires i <= |s|
    ensures i <= e <= |s|
    ensures forall k :: i <= k < e ==> IsDigit(s[k])
    ensures e == |s| || !IsDigit(s[e])
    decreases |s| - i
  {
    if i < |s| && IsDigit(s[i]) then RunEnd(s, i + 1) else i
  }

  /** Index of the first digit at or after `i`. */
  function FirstDigit(s: string, i: nat): (r: Option<nat>)
    requires i <= |s|
    ensures r.None? <==> forall k :: i <= k < |s| ==> !IsDigit(s[k])
    ensures r.Some? ==> i <= r.value < |s| && IsDigit(s[r.value])
    ensures r.Some? ==> forall k :: i <= k < r.value ==> !IsDigit(s[k])
    decreases |s| - i
  {
    if i == |s| then None
    else if IsDigit(s[i]) then Some(i)
    else FirstDigit(s, i + 1)
  }

  /** The run `s[k..e]` is the leftmost maximal run of digits in `s`. */
  ghost predicate IsFirstDigitRun(s: string, k: nat, e: nat) {
    && k < e <= |s|
    && (forall j :: 0 <= j < k ==> !IsDigit(s[j]))
    && (forall j :: k <= j < e ==> IsDigit(s[j]))
    && (e == |s| || !IsDigit(s[e]))
  }

  /** What `Pattern.compile("[\\d]+").matcher(s)` yields: `find()` succeeds
      exactly when `s` holds a digit, and `group()` is the first maximal run. */
  function FirstDigitRun(s: string): (r: Option<string>)
    ensures r.None? <==> forall j :: 0 <= j < |s| ==> !IsDigit(s[j])
    ensures r.Some? ==> |r.value| > 0 && AllDigits(r.value)
    ensures r.Some? ==> exists k: nat, e: nat :: IsFirstDigitRun(s, k, e) && r.value == s[k..e]
  {
    match FirstDigit(s, 0)
    case None => None
    case Some(k) =>
      var e := RunEnd(s, k);
      assert IsFirstDigitRun(s, k, e);
      Some(s[k..e])
  }

  /** The value of the first digit run of `s`, if it has one. */
  function FirstNumber(s: string): Option<nat> {
    match FirstDigitRun(s)
    case None => None
    case Some(run) => Some(DecimalValue(run))
  }

  /** `Integer.parseInt(s)` / `Integer.valueOf(s)`: an optional sign, one or
      more ASCII digits, and a value that fits an `int`; None stands for the
      NumberFormatException it throws otherwise. */
  function JavaParseInt(s: string): (r: Option<int>)
    ensures r.Some? ==> MinInt <= r.value <= MaxInt
    ensures |s| > 0 && AllDigits(s) ==> (r.Some? <==> DecimalValue(s) <= MaxInt)
    ensures |s| > 0 && AllDigits(s) && r.Some? ==> r.value == DecimalValue(s)
    ensures r.Some? ==> |s| > 0
    ensures r.Some? && |s| > 0 && s[0] != '-' && s[0] != '+' ==> AllDigits(s)
    ensures |s| > 1 && (s[0] == '-' || s[0] == '+') && AllDigits(s[1..]) ==>
      var v := if s[0] == '-' then -(DecimalValue(s[1..]) as int) else DecimalValue(s[1..]);
      (r.Some? <==> MinInt <= v <= MaxInt) && (r.Some? ==> r.value == v)
    ensures |s| > 0 && (s[0] == '-' || s[0] == '+') && (|s| == 1 || !AllDigits(s[1..])) ==> r.None?
  {
    if |s| == 0 then None
    else if s[0] == '-' || s[0] == '+' then
      var body := s[1..];
      if |body| == 0 || !AllDigits(body) then None
      else
        var v := if s[0] == '-' then -(DecimalValue(body) as int) else DecimalValue(body);
        if MinInt <= v <= MaxInt then Some(v) else None
    else if AllDigits(s) && DecimalValue(s) <= MaxInt then Some(DecimalValue(s))
    else None
  }

  /** Java `int` addition: the mathematical value taken modulo 2^32 into [MinInt, MaxInt]. */
  function Wrap32(x: int): (r: int)
    ensures MinInt <= r <= MaxInt
    ensures MinInt <= x <= MaxInt ==> r == x
    ensures (x - r) % 0x1_0000_0000 == 0
  {
    (x - MinInt) % 0x1_0000_0000 + MinInt
  }
}
