/** Resolution outcomes and the table-driven stop-id scheme shared by both
    versions of the agency tools: a stop id token such as "BLA123C" is read
    as a known prefix, a known last letter and its first run of digits. */
module StopScheme {
  import opened Strings

  /** Why a record could not be given an id; every one ends the run. */
  datatype Failure =
    | UnexpectedRouteId  // MTLog.Fatal("Unexpected route ID ...")
    | BadNumber          // NumberFormatException from Integer.parseInt / Integer.valueOf
    | NoDigitRun         // the token holds no digit
    | UnknownPrefix      // "Stop doesn't have an ID (start with)"
    | UnknownSuffix      // "Stop doesn't have an ID (end with)"

  datatype Resolved = Ok(id: int) | Fatal(reason: Failure)

  /** A closed table of keys and the offsets they stand for. */
  type Table = seq<(string, int)>

  /** The prefix table is matched with `startsWith`, the suffix table with
      `endsWith`; in both the first entry that fits wins, as in the source's
      if / else-if chains. */
  datatype Scheme = Scheme(prefixes: Table, suffixes: Table)

  predicate Fits(token: string, key: string, atEnd: bool) {
    if atEnd then EndsWith(token, key) else StartsWith(token, key)
  }

  /** The if / else-if chain over a table: the value of the first entry
      whose key fits. It fails exactly when no entry fits. */
  function Lookup(table: Table, token: string, atEnd: bool): (r: Option<int>)
    ensures r.None? <==> forall j :: 0 <= j < |table| ==> !Fits(token, table[j].0, atEnd)
  {
    if table == [] then None
    else if Fits(token, table[0].0, atEnd) then Some(table[0].1)
    else Lookup(table[1..], token, atEnd)
  }

  /** The chain's order: `Lookup` gives the value of the FIRST entry whose
      key fits, every earlier entry failing to fit. */
  lemma {:induction false} LookupFinds(table: Table, token: string, atEnd: bool)
    ensures Lookup(table, token, atEnd).None? <==> forall j :: 0 <= j < |table| ==> !Fits(token, table[j].0, atEnd)
    ensures Lookup(table, token, atEnd).Some? ==>
      exists j :: 0 <= j < |table| && Fits(token, table[j].0, atEnd) && table[j].1 == Lookup(table, token, atEnd).value
        && forall k :: 0 <= k < j ==> !Fits(token, table[k].0, atEnd)
  {
    if table != [] && !Fits(token, table[0].0, atEnd) {
      LookupFinds(table[1..], token, atEnd);
      assert forall j :: 1 <= j < |table| ==> table[j] == table[1..][j - 1];
      if Lookup(table, token, atEnd).Some? {
        var j :| 0 <= j < |table[1..]| && Fits(token, table[1..][j].0, atEnd) && table[1..][j].1 == Lookup(table, token, atEnd).value
          && forall k :: 0 <= k < j ==> !Fits(token, table[1..][k].0, atEnd);
        assert table[j + 1] == table[1..][j];
        assert forall k :: 0 <= k < j + 1 ==> !Fits(token, table[k].0, atEnd);
      }
    } else if table != [] {
      assert Fits(token, table[0].0, atEnd) && table[0].1 == Lookup(table, token, atEnd).value;
    }
  }

  /** No key of the table fits another key of it, so no token fits two entries. */
  predicate Exclusive(table: Table, atEnd: bool) {
    forall i, j :: 0 <= i < |table| && 0 <= j < |table| && i != j ==> !Fits(table[j].0, table[i].0, atEnd)
  }

  /** Two keys that both fit one token: the shorter fits the longer. */
  lemma FitsBoth(token: string, a: string, b: string, atEnd: bool)
    requires Fits(token, a, atEnd) && Fits(token, b, atEnd) && |a| <= |b|
    ensures Fits(b, a, atEnd)
  {
    if atEnd {
      assert b[|b| - |a|..] == token[|token| - |a|..];
    } else {
      assert b[..|a|] == token[..|a|];
    }
  }

  /** Keys of one length that are pairwise distinct make an exclusive table. */
  lemma SameLengthExclusive(table: Table, atEnd: bool, len: nat)
    requires forall i :: 0 <= i < |table| ==> |table[i].0| == len
    requires forall i, j :: 0 <= i < j < |table| ==> table[i].0 != table[j].0
    ensures Exclusive(table, atEnd)
  {
    forall i, j | 0 <= i < |table| && 0 <= j < |table| && i != j
      ensures !Fits(table[j].0, table[i].0, atEnd)
    {
      var a, b := table[i].0, table[j].0;
      if atEnd {
        assert b[|b| - |a|..] == b;
      } else {
        assert b[..|a|] == b;
      }
      if i > j {
        assert b != a;
      }
    }
  }

  /** In an exclusive table the entry that fits is the one found. */
  lemma LookupExclusive(table: Table, token: string, atEnd: bool, j: nat)
    requires Exclusive(table, atEnd) && j < |table| && Fits(token, table[j].0, atEnd)
    ensures Lookup(table, token, atEnd) == Some(table[j].1)
  {
    LookupFinds(table, token, atEnd);
    var i :| 0 <= i < |table| && Fits(token, table[i].0, atEnd) && table[i].1 == Lookup(table, token, atEnd).value;
    if i != j {
      if |table[i].0| <= |table[j].0| {
        FitsBoth(token, table[i].0, table[j].0, atEnd);
      } else {
        FitsBoth(token, table[j].0, table[i].0, atEnd);
      }
      assert false;
    }
  }

  /** The token path of getStopId: the first digit run is found and parsed,
      then the prefix is looked up, then the last letter; the id is
      base + offset + digits in Java `int` arithmetic. */
  function TokenStopId(scheme: Scheme, token: string): (r: Resolved)
    ensures var n, pre, suf := FirstNumber(token), Lookup(scheme.prefixes, token, false), Lookup(scheme.suffixes, token, true);
      r.Ok? <==> n.Some? && n.value <= MaxInt && pre.Some? && suf.Some?
    ensures var n, pre, suf := FirstNumber(token), Lookup(scheme.prefixes, token, false), Lookup(scheme.suffixes, token, true);
      r.Ok? ==> r.id == Wrap32(pre.value + suf.value + n.value)
    ensures var n, pre := FirstNumber(token), Lookup(scheme.prefixes, token, false);
      r.Fatal? ==> r.reason == (if n.None? then NoDigitRun else if n.value > MaxInt then BadNumber
                                else if pre.None? then UnknownPrefix else UnknownSuffix)
  {
    match FirstDigitRun(token)
    case None => Fatal(NoDigitRun)
    case Some(run) =>
      match JavaParseInt(run)
      case None => Fatal(BadNumber)
      case Some(digits) =>
        match Lookup(scheme.prefixes, token, false)
        case None => Fatal(UnknownPrefix)
        case Some(base) =>
          match Lookup(scheme.suffixes, token, true)
          case None => Fatal(UnknownSuffix)
          case Some(offset) => Ok(Wrap32(base + offset + digits))
  }

  /** The token path once its four steps are known. */
  lemma TokenStopIdFrom(scheme: Scheme, token: string, n: nat, base: int, offset: int)
    requires FirstNumber(token) == Some(n) && n <= MaxInt
    requires Lookup(scheme.prefixes, token, false) == Some(base)
    requires Lookup(scheme.suffixes, token, true) == Some(offset)
    ensures TokenStopId(scheme, token) == Ok(Wrap32(base + offset + n))
  {
    var run := FirstDigitRun(token).value;
    assert JavaParseInt(run) == Some(n);
  }

  /** With exclusive tables, a token that fits prefix entry `p` and suffix
      entry `s` and holds a digit run resolves through exactly those entries. */
  lemma ExclusiveResolves(scheme: Scheme, token: string, p: nat, s: nat, n: nat)
    requires Exclusive(scheme.prefixes, false) && Exclusive(scheme.suffixes, true)
    requires p < |scheme.prefixes| && s < |scheme.suffixes|
    requires StartsWith(token, scheme.prefixes[p].0) && EndsWith(token, scheme.suffixes[s].0)
    requires FirstNumber(token) == Some(n) && n <= MaxInt
    ensures TokenStopId(scheme, token) == Ok(Wrap32(scheme.prefixes[p].1 + scheme.suffixes[s].1 + n))
  {
    LookupExclusive(scheme.prefixes, token, false, p);
    LookupExclusive(scheme.suffixes, token, true, s);
    TokenStopIdFrom(scheme, token, n, scheme.prefixes[p].1, scheme.suffixes[s].1);
  }

  /** `big` keeps every entry of `small`, and its tables are exclusive. */
  predicate Extends(big: Scheme, small: Scheme) {
    && Exclusive(big.prefixes, false)
    && Exclusive(big.suffixes, true)
    && (forall e :: e in small.prefixes ==> e in big.prefixes)
    && (forall e :: e in small.suffixes ==> e in big.suffixes)
  }

  lemma LookupExtends(big: Table, small: Table, token: string, atEnd: bool)
    requires Exclusive(big, atEnd) && forall e :: e in small ==> e in big
    requires Lookup(small, token, atEnd).Some?
    ensures Lookup(big, token, atEnd) == Lookup(small, token, atEnd)
  {
    LookupFinds(small, token, atEnd);
    var j :| 0 <= j < |small| && Fits(token, small[j].0, atEnd) && small[j].1 == Lookup(small, token, atEnd).value;
    assert small[j] in big;
    var i :| 0 <= i < |big| && big[i] == small[j];
    LookupExclusive(big, token, atEnd, i);
  }

  /** The token path depends on a scheme only through its two lookups. */
  lemma SameLookupsSameId(big: Scheme, small: Scheme, token: string)
    requires Lookup(big.prefixes, token, false) == Lookup(small.prefixes, token, false)
    requires Lookup(big.suffixes, token, true) == Lookup(small.suffixes, token, true)
    ensures TokenStopId(big, token) == TokenStopId(small, token)
  {
  }

  /** Every token the smaller scheme resolves, the larger resolves to the same id. */
  lemma ExtendsAgrees(big: Scheme, small: Scheme, token: string)
    requires Extends(big, small) && TokenStopId(small, token).Ok?
    ensures TokenStopId(big, token) == TokenStopId(small, token)
  {
    assert Lookup(small.prefixes, token, false).Some? && Lookup(small.suffixes, token, true).Some?;
    LookupExtends(big.prefixes, small.prefixes, token, false);
    LookupExtends(big.suffixes, small.suffixes, token, true);
    SameLookupsSameId(big, small, token);
  }
}
