/** `Pattern.matcher(s).replaceAll(rep)` for the literal patterns of the
    agency tools: leftmost, non-overlapping replacement, where a pattern is a
    list of literal alternatives tried in order at each position. */
module Rewrite {
  import opened Strings

  /** A compiled pattern: literal alternatives tried in order (a greedy
      `de[s]? ` is ["des ", "de "]), a case mode, and whether it is anchored
      by a leading `^` to the start of the input. */
  datatype Pattern = Pattern(alts: seq<string>, mode: CaseMode, anchored: bool)

  /** Length of the first non-empty alternative that matches the beginning of `t`. */
  function MatchLen(t: string, alts: seq<string>, mode: CaseMode): (r: Option<nat>)
    ensures r.Some? ==> 0 < r.value <= |t|
  {
    if alts == [] then None
    else if |alts[0]| > 0 && FoldPrefix(t, alts[0], mode) then
      FoldPrefixLength(t, alts[0], mode);
      Some(|alts[0]|)
    else MatchLen(t, alts[1..], mode)
  }

  /** `MatchLen` picks the first alternative, in list order, that matches. */
  lemma {:induction false} MatchLenFirst(t: string, alts: seq<string>, mode: CaseMode)
    ensures MatchLen(t, alts, mode).None?
        <==> forall j :: 0 <= j < |alts| ==> |alts[j]| == 0 || !FoldPrefix(t, alts[j], mode)
    ensures MatchLen(t, alts, mode).Some? ==>
      exists j :: 0 <= j < |alts| && |alts[j]| > 0 && FoldPrefix(t, alts[j], mode)
        && MatchLen(t, alts, mode).value == |alts[j]|
        && forall k :: 0 <= k < j ==> |alts[k]| == 0 || !FoldPrefix(t, alts[k], mode)
  {
    if alts != [] {
      MatchLenFirst(t, alts[1..], mode);
      assert forall j :: 1 <= j < |alts| ==> alts[j] == alts[1..][j - 1];
      if !(|alts[0]| > 0 && FoldPrefix(t, alts[0], mode)) && MatchLen(t, alts, mode).Some? {
        var j :| 0 <= j < |alts[1..]| && |alts[1..][j]| > 0 && FoldPrefix(t, alts[1..][j], mode)
          && MatchLen(t, alts[1..], mode).value == |alts[1..][j]|
          && forall k :: 0 <= k < j ==> |alts[1..][k]| == 0 || !FoldPrefix(t, alts[1..][k], mode);
        assert forall k :: 0 <= k < j + 1 ==> |alts[k]| == 0 || !FoldPrefix(t, alts[k], mode);
      }
    }
  }

  function Match(t: string, p: Pattern): Option<nat> {
    MatchLen(t, p.alts, p.mode)
  }

  /** A match of `p` starts at some position of `s` (anchoring aside). */
  predicate Occurs(s: string, p: Pattern)
    decreases |s|
  {
    |s| > 0 && (Match(s, p).Some? || Occurs(s[1..], p))
  }

  /** Scanning replacement: at each position the first matching alternative
      is replaced by `rep` and the scan resumes after it; otherwise one
      character is kept. A text in which the pattern does not occur is
      left as it is. */
  function ReplaceScan(s: string, p: Pattern, rep: string): (r: string)
    ensures !Occurs(s, p) ==> r == s
    decreases |s|
  {
    if |s| == 0 then []
    else
      match Match(s, p)
      case Some(n) => rep + ReplaceScan(s[n..], p, rep)
      case None => assert s == [s[0]] + s[1..]; [s[0]] + ReplaceScan(s[1..], p, rep)
  }

  /** `p.matcher(s).replaceAll(rep)`: an anchored pattern can only match at
      index 0, so it is replaced at most once. A text in which the pattern
      does not occur is left as it is, anchored or not. */
  function ReplaceAll(s: string, p: Pattern, rep: string): (r: string)
    ensures !Occurs(s, p) ==> r == s
    ensures p.anchored && Match(s, p).None? ==> r == s
  {
    if p.anchored then
      match Match(s, p)
      case Some(n) => rep + s[n..]
      case None => s
    else ReplaceScan(s, p, rep)
  }

  /** The framework's `Utils.replaceAll(s, patterns, rep)`, taken to apply
      every pattern of the array in turn, each on the previous one's output.
      A text that holds none of the patterns passes unchanged. */
  function ReplaceEach(s: string, ps: seq<Pattern>, rep: string): (r: string)
    ensures (forall k :: 0 <= k < |ps| ==> !Occurs(s, ps[k])) ==> r == s
    decreases |ps|
  {
    if ps == [] then s
    else
      assert forall k :: 0 <= k < |ps| - 1 ==> ps[1..][k] == ps[k + 1];
      ReplaceEach(ReplaceAll(s, ps[0], rep), ps[1..], rep)
  }

  /** A match at any position is an occurrence. */
  lemma {:induction false} OccursAt(s: string, p: Pattern, j: nat)
    requires j < |s| && Match(s[j..], p).Some?
    ensures Occurs(s, p)
    decreases j
  {
    if j > 0 {
      assert s[1..][j - 1..] == s[j..];
      OccursAt(s[1..], p, j - 1);
    }
  }

  /** Positions where no match starts are copied through unchanged. */
  lemma {:induction false} ReplaceScanKeep(s: string, p: Pattern, rep: string, i: nat)
    requires i <= |s|
    requires forall j {:trigger Match(s[j..], p)} :: 0 <= j < i ==> Match(s[j..], p).None?
    ensures ReplaceScan(s, p, rep) == s[..i] + ReplaceScan(s[i..], p, rep)
    decreases i
  {
    if i > 0 {
      var t := s[1..];
      assert Match(s[0..], p).None?;
      assert s[0..] == s;
      forall j | 0 <= j < i - 1
        ensures Match(t[j..], p).None?
      {
        assert t[j..] == s[j + 1..];
        assert Match(s[j + 1..], p).None?;
      }
      ReplaceScanKeep(t, p, rep, i - 1);
      assert t[i - 1..] == s[i..];
      assert s[..i] == [s[0]] + t[..i - 1];
    }
  }

  /** Reference characterisation of the scan: everything before the leftmost
      match is kept, the match becomes `rep`, and the scan resumes right
      after the match. */
  lemma ReplaceScanAtFirst(s: string, p: Pattern, rep: string, i: nat, n: nat)
    requires i < |s| && Match(s[i..], p) == Some(n)
    requires forall j {:trigger Match(s[j..], p)} :: 0 <= j < i ==> Match(s[j..], p).None?
    ensures ReplaceScan(s, p, rep) == s[..i] + rep + ReplaceScan(s[i + n..], p, rep)
  {
    ReplaceScanKeep(s, p, rep, i);
    assert s[i..][n..] == s[i + n..];
  }

  /** The same, with the text cut at the first match: `u` holds no match
      start and `w` is the first match. */
  lemma ReplaceScanSplit(u: string, w: string, v: string, p: Pattern, rep: string)
    requires forall j {:trigger Match((u + w + v)[j..], p)} :: 0 <= j < |u| ==> Match((u + w + v)[j..], p).None?
    requires Match(w + v, p) == Some(|w|)
    ensures ReplaceScan(u + w + v, p, rep) == u + rep + ReplaceScan(v, p, rep)
  {
    var s := u + w + v;
    SliceParts(u, w, v);
    assert s[|u|..] == w + v;
    ReplaceScanAtFirst(s, p, rep, |u|, |w|);
  }

  /** Deleting the first match `w` of a pattern that does not occur in the
      rest `v` joins what came before it to `v`. */
  lemma ReplaceScanDeleteFirst(u: string, w: string, v: string, p: Pattern)
    requires forall j {:trigger Match((u + w + v)[j..], p)} :: 0 <= j < |u| ==> Match((u + w + v)[j..], p).None?
    requires Match(w + v, p) == Some(|w|)
    requires !Occurs(v, p)
    ensures ReplaceScan(u + w + v, p, "") == u + v
  {
    ReplaceScanSplit(u, w, v, p, "");
    assert u + "" == u;
  }

  /** A pattern cannot occur in a string that lacks a character which every
      alternative of the pattern contains. */
  lemma {:induction false} AbsentWithout(s: string, p: Pattern, c: char)
    requires forall a :: a in p.alts ==> c in a
    requires forall i :: 0 <= i < |s| ==> !CharEq(s[i], c, p.mode)
    ensures !Occurs(s, p)
    decreases |s|
  {
    if |s| > 0 {
      MatchLenFirst(s, p.alts, p.mode);
      if Match(s, p).Some? {
        var j :| 0 <= j < |p.alts| && |p.alts[j]| > 0 && FoldPrefix(s, p.alts[j], p.mode);
        assert p.alts[j] in p.alts;
        var k :| 0 <= k < |p.alts[j]| && p.alts[j][k] == c;
        FoldPrefixAt(s, p.alts[j], p.mode, k);
        assert false;
      }
      AbsentWithout(s[1..], p, c);
    }
  }

  /** The same for a single-alternative pattern, naming the missing
      character by its position in the literal. */
  lemma AbsentSingle(s: string, p: Pattern, k: nat)
    requires |p.alts| == 1 && k < |p.alts[0]|
    requires forall i :: 0 <= i < |s| ==> !CharEq(s[i], p.alts[0][k], p.mode)
    ensures !Occurs(s, p)
  {
    AbsentWithout(s, p, p.alts[0][k]);
  }

  /** One step of a rewrite pipeline: `pattern.matcher(s).replaceAll(rep)`. */
  datatype Rule = Rule(pattern: Pattern, rep: string)

  /** A fixed sequence of rewrite steps, each applied to the previous output.
      A text that holds none of the patterns passes unchanged. */
  function ApplyRules(s: string, rules: seq<Rule>): (r: string)
    ensures (forall k :: 0 <= k < |rules| ==> !Occurs(s, rules[k].pattern)) ==> r == s
    decreases |rules|
  {
    if rules == [] then s
    else
      assert forall k :: 0 <= k < |rules| - 1 ==> rules[1..][k] == rules[k + 1];
      ApplyRules(ReplaceAll(s, rules[0].pattern, rules[0].rep), rules[1..])
  }

  /** Running two rule lists one after the other is running their concatenation. */
  lemma {:induction false} ApplyRulesAppend(s: string, a: seq<Rule>, b: seq<Rule>)
    ensures ApplyRules(s, a + b) == ApplyRules(ApplyRules(s, a), b)
    decreases |a|
  {
    if a == [] {
      assert a + b == b;
    } else {
      assert (a + b)[1..] == a[1..] + b;
      ApplyRulesAppend(ReplaceAll(s, a[0].pattern, a[0].rep), a[1..], b);
    }
  }

  /** A pattern whose alternatives all begin with `c` does not match a text
      that does not begin with `c`. */
  lemma NoMatchAtHead(t: string, p: Pattern, c: char)
    requires forall a :: a in p.alts ==> |a| > 0 && a[0] == c
    requires |t| == 0 || !CharEq(t[0], c, p.mode)
    ensures Match(t, p).None?
  {
    MatchLenFirst(t, p.alts, p.mode);
    forall j | 0 <= j < |p.alts|
      ensures !FoldPrefix(t, p.alts[j], p.mode)
    {
      assert p.alts[j] in p.alts;
    }
  }

  /** ... so no match starts inside a prefix `u` without `c`. */
  lemma NoMatchBefore(u: string, w: string, v: string, p: Pattern, c: char)
    requires forall a :: a in p.alts ==> |a| > 0 && a[0] == c
    requires forall i :: 0 <= i < |u| ==> !CharEq(u[i], c, p.mode)
    ensures forall j {:trigger Match((u + w + v)[j..], p)} :: 0 <= j < |u| ==> Match((u + w + v)[j..], p).None?
  {
    forall j | 0 <= j < |u|
      ensures Match((u + w + v)[j..], p).None?
    {
      assert (u + w + v)[j..][0] == u[j];
      NoMatchAtHead((u + w + v)[j..], p, c);
    }
  }

  /** The first alternative wins wherever its literal stands. */
  lemma FirstAltMatch(t: string, p: Pattern)
    requires |p.alts| > 0 && 0 < |p.alts[0]| <= |t| && t[..|p.alts[0]|] == p.alts[0]
    ensures Match(t, p) == Some(|p.alts[0]|)
  {
    FoldPrefixSelf(t, p.alts[0], p.mode);
  }

  /** The second alternative wins where the first differs at `k` and the
      second's literal stands: the greedy `[s]?` falling back to no 's'. */
  lemma SecondAltMatch(t: string, p: Pattern, k: nat)
    requires |p.alts| > 1 && k < |p.alts[0]| && |p.alts[0]| > 0
    requires k >= |t| || !CharEq(t[k], p.alts[0][k], p.mode)
    requires 0 < |p.alts[1]| <= |t| && t[..|p.alts[1]|] == p.alts[1]
    ensures Match(t, p) == Some(|p.alts[1]|)
  {
    if FoldPrefix(t, p.alts[0], p.mode) {
      FoldPrefixAt(t, p.alts[0], p.mode, k);
      assert false;
    }
    FoldPrefixSelf(t, p.alts[1], p.mode);
    assert MatchLen(t, p.alts, p.mode) == MatchLen(t, p.alts[1..], p.mode);
  }

  /** A single-alternative pattern matches exactly where its literal does. */
  lemma SingleMatch(t: string, p: Pattern)
    requires |p.alts| == 1 && |p.alts[0]| > 0
    ensures Match(t, p).Some? <==> FoldPrefix(t, p.alts[0], p.mode)
    ensures Match(t, p).Some? ==> Match(t, p).value == |p.alts[0]|
  {
    assert MatchLen(t, p.alts[1..], p.mode) == None by {
      assert p.alts[1..] == [];
    }
  }

  /** A single-alternative pattern does not match where one of its
      characters is missing or differs. */
  lemma SingleMismatch(t: string, p: Pattern, k: nat)
    requires |p.alts| == 1 && k < |p.alts[0]|
    requires k >= |t| || !CharEq(t[k], p.alts[0][k], p.mode)
    ensures Match(t, p).None?
  {
    SingleMatch(t, p);
    if FoldPrefix(t, p.alts[0], p.mode) {
      FoldPrefixAt(t, p.alts[0], p.mode, k);
      assert false;
    }
  }

  /** A single-alternative pattern whose `k`-th character stands nowhere in
      `u`, nor in `w` before index `k`, has no match starting inside `u`. */
  lemma NoMatchBeforeAt(u: string, w: string, v: string, p: Pattern, k: nat)
    requires |p.alts| == 1 && k < |p.alts[0]| && k <= |w|
    requires forall i :: 0 <= i < |u| ==> !CharEq(u[i], p.alts[0][k], p.mode)
    requires forall i :: 0 <= i < k ==> !CharEq(w[i], p.alts[0][k], p.mode)
    ensures forall j {:trigger Match((u + w + v)[j..], p)} :: 0 <= j < |u| ==> Match((u + w + v)[j..], p).None?
  {
    var s := u + w + v;
    forall j | 0 <= j < |u|
      ensures Match(s[j..], p).None?
    {
      if j + k < |u| {
        assert s[j..][k] == u[j + k];
      } else {
        assert s[j..][k] == w[j + k - |u|];
      }
      SingleMismatch(s[j..], p, k);
    }
  }

  /** When the `k`-th character of a single-alternative pattern stands in
      `s` only at index `m`, a match can only start at `m - k`. */
  lemma MatchOnlyAt(s: string, p: Pattern, k: nat, m: nat)
    requires |p.alts| == 1 && k < |p.alts[0]|
    requires forall i :: 0 <= i < |s| && i != m ==> !CharEq(s[i], p.alts[0][k], p.mode)
    ensures forall j {:trigger Match(s[j..], p)} :: 0 <= j < |s| && j + k != m ==> Match(s[j..], p).None?
  {
    forall j | 0 <= j < |s| && j + k != m
      ensures Match(s[j..], p).None?
    {
      SingleMismatch(s[j..], p, k);
    }
  }

  /** A text in which no match starts anywhere is left as it is. */
  lemma ReplaceScanNone(s: string, p: Pattern, rep: string)
    requires forall j {:trigger Match(s[j..], p)} :: 0 <= j < |s| ==> Match(s[j..], p).None?
    ensures ReplaceScan(s, p, rep) == s
  {
    ReplaceScanKeep(s, p, rep, |s|);
    assert s[..|s|] == s && s[|s|..] == [];
  }

  /** `Utils.replaceAll` over a three-pattern array, written out. */
  /** A text that holds none of the patterns passes through unchanged. */
  lemma ReplaceEachAbsent(s: string, ps: seq<Pattern>, rep: string)
    requires forall k :: 0 <= k < |ps| ==> !Occurs(s, ps[k])
    ensures ReplaceEach(s, ps, rep) == s
  {
  }

  /** Three patterns applied in turn, given what each step produces. */
  lemma ReplaceEachThreeSteps(s: string, ps: seq<Pattern>, rep: string, s1: string, s2: string, s3: string)
    requires |ps| == 3
    requires ReplaceAll(s, ps[0], rep) == s1 && ReplaceAll(s1, ps[1], rep) == s2 && ReplaceAll(s2, ps[2], rep) == s3
    ensures ReplaceEach(s, ps, rep) == s3
  {
    ReplaceEachThree(s, ps, rep);
  }

  lemma ReplaceEachThree(s: string, ps: seq<Pattern>, rep: string)
    requires |ps| == 3
    ensures ReplaceEach(s, ps, rep) == ReplaceAll(ReplaceAll(ReplaceAll(s, ps[0], rep), ps[1], rep), ps[2], rep)
  {
    var s1 := ReplaceAll(s, ps[0], rep);
    var s2 := ReplaceAll(s1, ps[1], rep);
    assert ReplaceEach(s, ps, rep) == ReplaceEach(s1, ps[1..], rep);
    assert ps[1..][0] == ps[1] && ps[1..][1..] == ps[2..];
    assert ReplaceEach(s1, ps[1..], rep) == ReplaceEach(s2, ps[2..], rep);
    assert ps[2..][0] == ps[2] && ps[2..][1..] == [];
  }

  /** A single-alternative pattern matches the whole of its own literal. */
  lemma WholeMatch(a: string, p: Pattern)
    requires p.alts == [a] && |a| > 0
    ensures Match(a, p) == Some(|a|)
  {
    SingleMatch(a, p);
    FoldPrefixSelf(a, a, p.mode);
  }

  /** A string matched as a whole is replaced as a whole. */
  lemma ReplaceScanWhole(s: string, p: Pattern, rep: string)
    requires Match(s, p) == Some(|s|)
    ensures ReplaceScan(s, p, rep) == rep
  {
    assert s[|s|..] == [];
  }
}
