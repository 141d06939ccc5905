/** The CIVIQUE_ rule of the agency tools: the regex
    `((^|\W)(civique #?([\d]+))(\W|$))`, case-insensitive, replaced by
    `$2#$4$5`, which turns "civique 12" and "civique #12" into "#12". */
module Civique {
  import opened Strings
  import opened Rewrite

  const Keyword := Pattern(["civique "], AsciiFold, false)

  /** `civique #?(\d+)(\W|$)` tried at `j`: the bounds (ds, de) of the digits
      and the end e of the match, which includes the one trailing non-word
      character when there is one. BodyAtMeaning states what a body is. */
  function BodyAt(s: string, j: nat): (r: Option<(nat, nat, nat)>)
    requires j <= |s|
    ensures r.Some? ==> j + 8 <= r.value.0 <= j + 9 && r.value.0 < r.value.1 <= r.value.2 <= |s|
  {
    if Match(s[j..], Keyword).None? then None
    else
      KeywordLength(s[j..]);
      var k := j + 8;
      var ds := if k < |s| && s[k] == '#' then k + 1 else k;
      var de := RunEnd(s, ds);
      if de == ds then None
      else if de == |s| then Some((ds, de, de))
      else if !IsWordChar(s[de]) then Some((ds, de, de + 1))
      else None
  }

  /** A body starts with "civique "; the digits start right after it, or
      one further on after a '#'; the run is non-empty and maximal, because
      it is followed by the end of the text or by a non-word character,
      which the match then takes in. After the keyword, no body exactly
      when the digit run is empty or is followed by a word character. */
  lemma BodyAtMeaning(s: string, j: nat)
    requires j <= |s|
    ensures var r := BodyAt(s, j);
      && (r.Some? ==> Match(s[j..], Keyword).Some?)
      && (r.Some? ==> j + 8 < |s| && r.value.0 == (if s[j + 8] == '#' then j + 9 else j + 8))
      && (r.Some? ==> AllDigits(s[r.value.0..r.value.1]))
      && (r.Some? && r.value.1 == |s| ==> r.value.2 == |s|)
      && (r.Some? && r.value.1 < |s| ==> !IsWordChar(s[r.value.1]) && r.value.2 == r.value.1 + 1)
    ensures Match(s[j..], Keyword).Some? ==>
      var ds := if j + 8 < |s| && s[j + 8] == '#' then j + 9 else j + 8;
      ds <= |s| && (BodyAt(s, j).None? <==> RunEnd(s, ds) == ds || (RunEnd(s, ds) < |s| && IsWordChar(s[RunEnd(s, ds)])))
  {
    if Match(s[j..], Keyword).Some? {
      KeywordLength(s[j..]);
      var ds := if j + 8 < |s| && s[j + 8] == '#' then j + 9 else j + 8;
      RunDigits(s, ds);
    }
  }

  lemma RunDigits(s: string, i: nat)
    requires i <= |s|
    ensures AllDigits(s[i..RunEnd(s, i)])
  {
    var e := RunEnd(s, i);
    assert forall k :: 0 <= k < e - i ==> s[i..e][k] == s[i + k];
  }

  lemma KeywordLength(t: string)
    requires Match(t, Keyword).Some?
    ensures 8 <= |t| && Match(t, Keyword) == Some(8)
  {
    MatchLenFirst(t, Keyword.alts, Keyword.mode);
    FoldPrefixLength(t, "civique ", AsciiFold);
  }

  /** A match of the whole rule starting at `i`: `^` is tried first (only at
      index 0), then one non-word character. Gives the replacement text
      `$2#$4$5` and the index where the scan resumes. */
  function MatchAt(s: string, i: nat): (r: Option<(string, nat)>)
    requires i <= |s|
    ensures r.Some? ==> i < r.value.1 <= |s|
    ensures r.Some? ==> |r.value.0| + 7 <= r.value.1 - i
  {
    var atStart := if i == 0 then BodyAt(s, 0) else None;
    if atStart.Some? then
      var (ds, de, e) := atStart.value;
      Some(("#" + s[ds..de] + s[de..e], e))
    else if i < |s| && !IsWordChar(s[i]) && BodyAt(s, i + 1).Some? then
      var (ds, de, e) := BodyAt(s, i + 1).value;
      Some(([s[i]] + "#" + s[ds..de] + s[de..e], e))
    else None
  }

  /** A match of the rule starts with the keyword, at `i` or one further on. */
  lemma MatchAtKeyword(s: string, i: nat)
    requires i <= |s| && MatchAt(s, i).Some?
    ensures Match(s[i..], Keyword).Some? || (i + 1 <= |s| && Match(s[i + 1..], Keyword).Some?)
  {
    if i == 0 && BodyAt(s, 0).Some? {
      BodyAtMeaning(s, 0);
    } else {
      BodyAtMeaning(s, i + 1);
    }
  }

  /** The scan from `i` on; every match drops at least the seven letters
      of "civique", so the output is never longer than the input. */
  function ReplaceFrom(s: string, i: nat): (r: string)
    requires i <= |s|
    ensures |r| <= |s| - i
    decreases |s| - i
  {
    if i == |s| then []
    else
      match MatchAt(s, i)
      case Some((t, e)) => t + ReplaceFrom(s, e)
      case None => [s[i]] + ReplaceFrom(s, i + 1)
  }

  /** `CIVIQUE_.matcher(s).replaceAll(CIVIQUE_REPLACEMENT)`. Without the
      word "civique " the rule changes nothing, and it never lengthens a
      text. */
  function ReplaceCivique(s: string): (r: string)
    ensures !Occurs(s, Keyword) ==> r == s
    ensures |r| <= |s|
  {
    if Occurs(s, Keyword) then ReplaceFrom(s, 0)
    else ReplaceFromUnchanged(s, 0); ReplaceFrom(s, 0)
  }

  lemma {:induction false} ReplaceFromUnchanged(s: string, i: nat)
    requires i <= |s| && !Occurs(s, Keyword)
    ensures ReplaceFrom(s, i) == s[i..]
    decreases |s| - i
  {
    if i < |s| {
      if MatchAt(s, i).Some? {
        MatchAtKeyword(s, i);
        if Match(s[i..], Keyword).Some? {
          OccursAt(s, Keyword, i);
        } else {
          OccursAt(s, Keyword, i + 1);
        }
        assert false;
      }
      ReplaceFromUnchanged(s, i + 1);
      assert s[i..] == [s[i]] + s[i + 1..];
    }
  }

  /** A digit run that reaches the end of the string ends there. */
  lemma RunToEnd(s: string, i: nat)
    requires i <= |s| && AllDigits(s[i..])
    ensures RunEnd(s, i) == |s|
  {
  }

  lemma NumberBody(n: string, hash: bool)
    requires |n| > 0 && AllDigits(n)
    ensures var head := if hash then "civique #" else "civique ";
      BodyAt(head + n, 0) == Some((|head|, |head + n|, |head + n|))
  {
    var head := if hash then "civique #" else "civique ";
    var s := head + n;
    assert s[0..] == s && s[..8] == "civique ";
    FoldPrefixSelf(s, "civique ", AsciiFold);
    SingleMatch(s, Keyword);
    assert s[8] == (if hash then '#' else n[0]);
    assert s[|head|..] == n;
    RunToEnd(s, |head|);
  }

  /** "civique N" and "civique #N" alone become "#N". */
  lemma CiviqueNumber(n: string, hash: bool)
    requires |n| > 0 && AllDigits(n)
    ensures ReplaceCivique((if hash then "civique #" else "civique ") + n) == "#" + n
  {
    var head := if hash then "civique #" else "civique ";
    var s := head + n;
    var ds: nat, len: nat := |head|, |s|;
    NumberBody(n, hash);
    TailSlices(head, n);
    assert ("#" + n) + [] == "#" + n;
    assert MatchAt(s, 0) == Some(("#" + n, len));
    assert ReplaceFrom(s, 0) == "#" + n + ReplaceFrom(s, len);
  }

  lemma TailSlices(h: string, n: string)
    ensures (h + n)[|h|..|h + n|] == n && (h + n)[|h + n|..|h + n|] == []
  {
    assert (h + n)[|h|..] == n;
  }

  /** Positions where the rule does not match are copied through. */
  lemma {:induction false} ReplaceFromKeep(s: string, i: nat)
    requires i <= |s|
    requires forall j :: i <= j < |s| ==> MatchAt(s, j).None?
    ensures ReplaceFrom(s, i) == s[i..]
    decreases |s| - i
  {
    if i < |s| {
      ReplaceFromKeep(s, i + 1);
      assert s[i..] == [s[i]] + s[i + 1..];
    }
  }

  /** A digit run stops at the first non-digit. */
  lemma RunStops(s: string, i: nat, e: nat)
    requires i <= e < |s| && !IsDigit(s[e])
    requires forall k :: i <= k < e ==> IsDigit(s[k])
    ensures RunEnd(s, i) == e
  {
  }

  lemma KeywordLetters(w: string)
    requires w == "civique "
    ensures forall k :: 0 <= k < 7 ==> IsWordChar(w[k])
    ensures !IsWordChar(w[7])
  {
  }

  /** "civique N" at `j` followed by one separator: the match runs to just
      past the separator. */
  lemma FirstBody(s: string, j: nat, n: string)
    requires |n| > 0 && AllDigits(n)
    requires j + 8 + |n| < |s| && s[j..j + 8] == "civique " && s[j + 8..j + 8 + |n|] == n
    requires !IsWordChar(s[j + 8 + |n|])
    ensures BodyAt(s, j).Some?
    ensures BodyAt(s, j).value.0 == j + 8 && BodyAt(s, j).value.1 == j + 8 + |n|
    ensures BodyAt(s, j).value.2 == j + 9 + |n|
  {
    assert s[j..][..8] == "civique ";
    FoldPrefixSelf(s[j..], "civique ", AsciiFold);
    SingleMatch(s[j..], Keyword);
    assert s[j + 8] == n[0];
    assert forall k :: j + 8 <= k < j + 8 + |n| ==> s[k] == n[k - j - 8];
    RunStops(s, j + 8, j + 8 + |n|);
  }

  /** Nothing matches inside a trailing "civique M" that follows a letter or
      a digit: its own separator is not there any more. */
  lemma SecondKeywordSkipped(s: string, a: nat, m: string)
    requires 0 < a && a + 8 + |m| == |s| && |m| > 0 && AllDigits(m)
    requires s[a..a + 8] == "civique " && s[a + 8..] == m
    ensures forall j :: a <= j < |s| ==> MatchAt(s, j).None?
  {
    var w := s[a..a + 8];
    KeywordLetters(w);
    forall j | a <= j < |s|
      ensures MatchAt(s, j).None?
    {
      if j == a + 7 {
        assert s[j + 1..] == m;
        SingleMismatch(m, Keyword, 0);
      } else if j < a + 7 {
        assert s[j] == w[j - a];
      } else {
        assert s[j] == m[j - a - 8];
      }
    }
  }

  /** The first match of "civique N" + separator, and where the scan resumes. */
  lemma FirstMatch(s: string, n: string)
    requires |n| > 0 && AllDigits(n)
    requires |s| > 8 + |n| && s[..8] == "civique " && s[8..8 + |n|] == n && !IsWordChar(s[8 + |n|])
    ensures MatchAt(s, 0) == Some(("#" + n + [s[8 + |n|]], 9 + |n|))
  {
    FirstBody(s, 0, n);
    assert s[8 + |n|..9 + |n|] == [s[8 + |n|]];
  }

  lemma SecondCiviqueSteps(s: string, n: string, m: string, a: nat)
    requires |n| > 0 && AllDigits(n) && |m| > 0 && AllDigits(m)
    requires a == 9 + |n| && |s| == a + 8 + |m|
    requires s[..8] == "civique " && s[8..8 + |n|] == n && s[8 + |n|] == ' '
    requires s[a..a + 8] == "civique " && s[a + 8..] == m
    ensures ReplaceFrom(s, 0) == "#" + n + " " + s[a..]
  {
    FirstMatch(s, n);
    SecondKeywordSkipped(s, a, m);
    ReplaceFromKeep(s, a);
  }

  /** The separator after a matched number is part of the match, so a
      second "civique M" right after it has no separator of its own and
      stays as it is. */
  lemma SecondCiviqueKept(s: string, k: string, n: string, m: string)
    requires |n| > 0 && AllDigits(n) && |m| > 0 && AllDigits(m)
    requires k == "civique " && s == k + n + " " + k + m
    ensures ReplaceCivique(s) == "#" + n + " " + k + m
  {
    var a: nat := 9 + |n|;
    assert s[..8] == k && s[8..8 + |n|] == n && s[8 + |n|] == ' ';
    assert s[a..a + 8] == k && s[a + 8..] == m;
    SecondCiviqueSteps(s, n, m, a);
    RuleIsScan(s);
    assert s[a..] == k + m;
  }

  /** The scan copies every position where no match starts. */
  lemma {:induction false} ReplaceFromSkip(s: string, i: nat, m: nat)
    requires i <= m <= |s|
    requires forall j :: i <= j < m ==> MatchAt(s, j).None?
    ensures ReplaceFrom(s, i) == s[i..m] + ReplaceFrom(s, m)
    decreases m - i
  {
    if i < m {
      ReplaceFromSkip(s, i + 1, m);
      SkipStep(s, i, m);
    } else {
      assert s[i..m] == [];
    }
  }

  lemma SkipStep(s: string, i: nat, m: nat)
    requires i < m <= |s| && MatchAt(s, i).None?
    requires ReplaceFrom(s, i + 1) == s[i + 1..m] + ReplaceFrom(s, m)
    ensures ReplaceFrom(s, i) == s[i..m] + ReplaceFrom(s, m)
  {
    CopyStep(s, i);
    SliceCons(s, i, m, ReplaceFrom(s, m));
  }

  lemma SliceCons(s: string, i: nat, m: nat, t: string)
    requires i < m <= |s|
    ensures [s[i]] + (s[i + 1..m] + t) == s[i..m] + t
  {
    assert s[i..m] == [s[i]] + s[i + 1..m];
  }

  lemma CopyStep(s: string, i: nat)
    requires i < |s| && MatchAt(s, i).None?
    ensures ReplaceFrom(s, i) == [s[i]] + ReplaceFrom(s, i + 1)
  {
  }

  /** No match of the rule can start where neither the character nor the
      next one is a 'c' or 'C'. */
  lemma NoMatchHere(s: string, i: nat)
    requires i < |s| && s[i] != 'c' && s[i] != 'C'
    requires i + 1 == |s| || (s[i + 1] != 'c' && s[i + 1] != 'C')
    ensures MatchAt(s, i).None?
  {
    SingleMismatch(s[i..], Keyword, 0);
    SingleMismatch(s[i + 1..], Keyword, 0);
  }

  /** No match starts in a stretch without 'c' or 'C' that is followed by
      such a character too (or by the end of the text). */
  lemma NoMatchIn(s: string, i: nat, m: nat)
    requires i <= m <= |s|
    requires forall j :: i <= j < m ==> s[j] != 'c' && s[j] != 'C'
    requires m == |s| || (s[m] != 'c' && s[m] != 'C')
    ensures forall j :: i <= j < m ==> MatchAt(s, j).None?
  {
    forall j | i <= j < m
      ensures MatchAt(s, j).None?
    {
      NoMatchHere(s, j);
    }
  }

  /** A non-word character, "civique ", the digits n and a non-word
      character at `a`: one match, resuming after the second character. */
  lemma MatchInside(s: string, a: nat, n: string)
    requires |n| > 0 && AllDigits(n)
    requires a + 9 + |n| < |s| && !IsWordChar(s[a]) && !IsWordChar(s[a + 9 + |n|])
    requires s[a + 1..a + 9] == "civique " && s[a + 9..a + 9 + |n|] == n
    ensures MatchAt(s, a) == Some(([s[a]] + "#" + n + [s[a + 9 + |n|]], a + 10 + |n|))
  {
    FirstBody(s, a + 1, n);
    MatchFromBody(s, a, n);
  }

  /** The match at a non-word character `a` from the body found after it. */
  lemma MatchFromBody(s: string, a: nat, n: string)
    requires a + 9 + |n| < |s| && !IsWordChar(s[a]) && s[a + 9..a + 9 + |n|] == n
    requires BodyAt(s, a + 1) == Some((a + 9, a + 9 + |n|, a + 10 + |n|))
    ensures MatchAt(s, a) == Some(([s[a]] + "#" + n + [s[a + 9 + |n|]], a + 10 + |n|))
  {
    if a == 0 {
      NoBodyAtSeparator(s);
    }
    MatchAfterSeparator(s, a, a + 9, a + 9 + |n|, a + 10 + |n|);
    assert s[a + 9 + |n|..a + 10 + |n|] == [s[a + 9 + |n|]];
  }

  /** The keyword cannot start on a non-word character. */
  lemma NoBodyAtSeparator(s: string)
    requires |s| > 0 && !IsWordChar(s[0])
    ensures BodyAt(s, 0).None?
  {
    SingleMismatch(s, Keyword, 0);
    assert s[0..] == s;
  }

  /** A body found right after a non-word character at `a` is the match at
      `a`, unless the match at the start of the text comes first. */
  lemma MatchAfterSeparator(s: string, a: nat, ds: nat, de: nat, e: nat)
    requires a < |s| && !IsWordChar(s[a])
    requires a == 0 ==> BodyAt(s, 0).None?
    requires BodyAt(s, a + 1) == Some((ds, de, e))
    ensures MatchAt(s, a) == Some(([s[a]] + "#" + s[ds..de] + s[de..e], e))
  {
  }

  lemma MatchStep(s: string, i: nat, t: string, e: nat)
    requires i < |s| && MatchAt(s, i) == Some((t, e))
    ensures ReplaceFrom(s, i) == t + ReplaceFrom(s, e)
  {
  }

  /** From the match at `a` on: its replacement, then the tail `y` copied. */
  lemma MatchThenTail(s: string, k: string, a: nat, n: string, y: string)
    requires k == "civique " && |n| > 0 && AllDigits(n)
    requires a + 9 + |n| < |s| && !IsWordChar(s[a]) && !IsWordChar(s[a + 9 + |n|])
    requires s[a + 1..a + 9] == k && s[a + 9..a + 9 + |n|] == n
    requires s[a + 10 + |n|..] == y && forall i :: 0 <= i < |y| ==> y[i] != 'c' && y[i] != 'C'
    ensures ReplaceFrom(s, a) == [s[a]] + "#" + n + [s[a + 9 + |n|]] + y
  {
    var e := a + 10 + |n|;
    MatchInside(s, a, n);
    MatchStep(s, a, [s[a]] + "#" + n + [s[a + 9 + |n|]], e);
    TailCopied(s, e, y);
  }

  /** A head `x` without 'c' or 'C', followed by a non-word character, is
      copied. */
  lemma HeadCopied(s: string, x: string)
    requires |x| < |s| && s[..|x|] == x && !IsWordChar(s[|x|])
    requires forall i :: 0 <= i < |x| ==> x[i] != 'c' && x[i] != 'C'
    ensures ReplaceFrom(s, 0) == x + ReplaceFrom(s, |x|)
  {
    assert forall j :: 0 <= j < |x| ==> s[j] == x[j];
    NoMatchIn(s, 0, |x|);
    ReplaceFromSkip(s, 0, |x|);
    assert s[0..|x|] == x;
  }

  /** A tail `y` without 'c' or 'C' is copied. */
  lemma TailCopied(s: string, e: nat, y: string)
    requires e <= |s| && s[e..] == y
    requires forall i :: 0 <= i < |y| ==> y[i] != 'c' && y[i] != 'C'
    ensures ReplaceFrom(s, e) == y
  {
    assert forall j :: e <= j < |s| ==> s[j] == y[j - e];
    NoMatchIn(s, e, |s|);
    ReplaceFromKeep(s, e);
  }

  /** Where the pieces of `x + [c] + k + n + [d] + y` sit, for a keyword of
      eight characters. */
  lemma Pieces(x: string, c: char, k: string, n: string, d: char, y: string)
    requires |k| == 8
    ensures var s, a := x + [c] + k + n + [d] + y, |x|;
      && |s| == a + 10 + |n| + |y|
      && s[..a] == x && s[a] == c && s[a + 1..a + 9] == k
      && s[a + 9..a + 9 + |n|] == n && s[a + 9 + |n|] == d && s[a + 10 + |n|..] == y
  {
  }

  lemma Regroup(x: string, c: char, h: string, n: string, d: char, y: string)
    ensures x + ([c] + h + n + [d] + y) == x + [c] + h + n + [d] + y
  {
  }

  /** The rule is the scan from the start, whether the keyword occurs or not. */
  lemma RuleIsScan(s: string)
    ensures ReplaceCivique(s) == ReplaceFrom(s, 0)
  {
  }

  /** "civique N" between two non-word characters, anywhere in a text
      whose other characters hold no 'c' or 'C': the match keeps the
      leading character, drops the keyword and keeps the trailing one. */
  lemma CiviqueInside(x: string, c: char, k: string, n: string, d: char, y: string)
    requires k == "civique "
    requires |n| > 0 && AllDigits(n) && !IsWordChar(c) && !IsWordChar(d)
    requires forall i :: 0 <= i < |x| ==> x[i] != 'c' && x[i] != 'C'
    requires forall i :: 0 <= i < |y| ==> y[i] != 'c' && y[i] != 'C'
    ensures ReplaceCivique(x + [c] + k + n + [d] + y) == x + [c] + "#" + n + [d] + y
  {
    var s := x + [c] + k + n + [d] + y;
    Pieces(x, c, k, n, d, y);
    HeadCopied(s, x);
    MatchThenTail(s, k, |x|, n, y);
    RuleIsScan(s);
    Regroup(x, c, "#", n, d, y);
  }
}
