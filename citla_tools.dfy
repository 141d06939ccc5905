/** The current agency tools for the exo Laurentides (CITLA) bus feed:
    numeric ids for routes and stops, and the ordered rewrites that clean
    route long names, trip headsigns and stop names. */
module CitlaTools {
  import opened Strings
  import opened Rewrite
  import opened Civique
  import opened StopScheme

  /** The fields of a feed route the tools read. */
  datatype GRoute = GRoute(routeId: string, routeShortName: string, routeLongName: string)

  /** The fields of a feed stop the tools read. */
  datatype GStop = GStop(stopId: string, stopCode: string)

  // ---------------------------------------------------------------- route ids

  /** Offset of the routes whose short name starts with "T". */
  const RidStartsWithT: int := 20_000

  /** getRouteId. A route with a digits-only source id is handed, whole and
      unchanged, to the framework's own rule `defaultRouteId`
      (super.getRouteId, not part of this model, which may itself fail);
      any other id is derived from the short name. */
  function RouteId(route: GRoute, defaultRouteId: GRoute -> Resolved): (r: Resolved)
    ensures AllDigits(route.routeId) ==> r == defaultRouteId(route)
    ensures !AllDigits(route.routeId) ==>
      (r.Ok? <==> StartsWith(route.routeShortName, "T")
                  && FirstNumber(route.routeShortName).Some?
                  && FirstNumber(route.routeShortName).value <= MaxInt)
    ensures !AllDigits(route.routeId) && r.Ok? ==>
      r.id == RidStartsWithT + FirstNumber(route.routeShortName).value
    ensures !AllDigits(route.routeId) && r.Fatal? ==>
      r.reason == (if FirstNumber(route.routeShortName).Some? && FirstNumber(route.routeShortName).value > MaxInt
                   then BadNumber else UnexpectedRouteId)
  {
    if AllDigits(route.routeId) then defaultRouteId(route)
    else
      match FirstDigitRun(route.routeShortName)
      case None => Fatal(UnexpectedRouteId)
      case Some(run) =>
        match JavaParseInt(run)
        case None => Fatal(BadNumber)
        case Some(digits) =>
          if StartsWith(route.routeShortName, "T") then Ok(RidStartsWithT + digits)
          else Fatal(UnexpectedRouteId)
  }

  // ----------------------------------------------------------------- stop ids

  /** getStopCode: the code "0" means that the stop has no code. */
  function StopCode(stop: GStop): (code: string)
    ensures code == "" <==> stop.stopCode == "" || stop.stopCode == "0"
    ensures code != "" ==> code == stop.stopCode
  {
    if stop.stopCode == "0" then "" else stop.stopCode
  }

  /** The five known prefixes, 100 000 apart, and the four known last
      letters, 1 000 apart. */
  const Current := Scheme(
    [("BLA", 100_000), ("SEU", 200_000), ("SJM", 300_000), ("ROS", 400_000), ("TER", 500_000)],
    [("A", 1_000), ("B", 2_000), ("C", 3_000), ("D", 4_000)])

  /** getStopId: a non-empty, all-digit stop code is the id; otherwise the
      stop id token is decomposed. */
  function StopId(stop: GStop): (r: Resolved)
    ensures stop.stopCode == "" || stop.stopCode == "0" ==> r == TokenStopId(Current, stop.stopId)
    ensures !AllDigits(stop.stopCode) ==> r == TokenStopId(Current, stop.stopId)
    ensures stop.stopCode != "" && stop.stopCode != "0" && AllDigits(stop.stopCode) ==>
      r == (if DecimalValue(stop.stopCode) <= MaxInt then Ok(DecimalValue(stop.stopCode)) else Fatal(BadNumber))
  {
    var code := StopCode(stop);
    if |code| > 0 && AllDigits(code) then
      match JavaParseInt(code)
      case Some(v) => Ok(v)
      case None => Fatal(BadNumber)
    else TokenStopId(Current, stop.stopId)
  }

  /** No known prefix fits another, nor any known last letter another. */
  lemma CurrentExclusive()
    ensures Exclusive(Current.prefixes, false) && Exclusive(Current.suffixes, true)
  {
    SameLengthExclusive(Current.prefixes, false, 3);
    SameLengthExclusive(Current.suffixes, true, 1);
  }

  /** The id a token with prefix number `p`, last-letter number `s` and
      digit run `n` stands for. */
  function TokenId(p: nat, s: nat, n: nat): int
    requires p < |Current.prefixes| && s < |Current.suffixes|
  {
    Current.prefixes[p].1 + Current.suffixes[s].1 + n
  }

  /** A token with a known prefix, a known last letter and a digit run
      resolves to base + offset + digits in Java `int` arithmetic. The
      scheme is a parameter pinned to `Current`, which keeps the literal
      tables out of the proof. */
  lemma CurrentTokenResolves(scheme: Scheme, token: string, p: nat, s: nat, n: nat)
    requires scheme == Current
    requires p < |scheme.prefixes| && s < |scheme.suffixes|
    requires StartsWith(token, scheme.prefixes[p].0) && EndsWith(token, scheme.suffixes[s].0)
    requires FirstNumber(token) == Some(n) && n <= MaxInt
    ensures TokenStopId(scheme, token) == Ok(Wrap32(scheme.prefixes[p].1 + scheme.suffixes[s].1 + n))
  {
    CurrentExclusive();
    ExclusiveResolves(scheme, token, p, s, n);
  }

  lemma CurrentLookups(token: string, p: nat, s: nat)
    requires p < |Current.prefixes| && s < |Current.suffixes|
    requires StartsWith(token, Current.prefixes[p].0) && EndsWith(token, Current.suffixes[s].0)
    ensures Lookup(Current.prefixes, token, false) == Some(Current.prefixes[p].1)
    ensures Lookup(Current.suffixes, token, true) == Some(Current.suffixes[s].1)
  {
    CurrentExclusive();
    LookupExclusive(Current.prefixes, token, false, p);
    LookupExclusive(Current.suffixes, token, true, s);
  }

  /** The sum only wraps for digit runs beyond MaxInt - 504 000. */
  lemma CurrentTokenNoWrap(token: string, p: nat, s: nat, n: nat)
    requires p < |Current.prefixes| && s < |Current.suffixes|
    requires StartsWith(token, Current.prefixes[p].0) && EndsWith(token, Current.suffixes[s].0)
    requires FirstNumber(token) == Some(n) && n <= MaxInt - 504_000
    ensures TokenStopId(Current, token) == Ok(Current.prefixes[p].1 + Current.suffixes[s].1 + n)
  {
    CurrentTokenResolves(Current, token, p, s, n);
    assert 100_000 <= Current.prefixes[p].1 <= 500_000 && 1_000 <= Current.suffixes[s].1 <= 4_000;
  }

  /** The token path fails when there is no digit run, when the run does not
      fit an `int`, when no known prefix fits (whatever the last letter), and
      when the prefix is known but the last letter is not. */
  lemma CurrentTokenFailures(token: string)
    ensures FirstNumber(token).None? ==> TokenStopId(Current, token) == Fatal(NoDigitRun)
    ensures FirstNumber(token).Some? && FirstNumber(token).value > MaxInt ==>
      TokenStopId(Current, token) == Fatal(BadNumber)
    ensures (&& FirstNumber(token).Some? && FirstNumber(token).value <= MaxInt
             && forall k :: 0 <= k < |Current.prefixes| ==> !StartsWith(token, Current.prefixes[k].0))
        ==> TokenStopId(Current, token) == Fatal(UnknownPrefix)
    ensures (&& FirstNumber(token).Some? && FirstNumber(token).value <= MaxInt
             && (exists k :: 0 <= k < |Current.prefixes| && StartsWith(token, Current.prefixes[k].0))
             && forall k :: 0 <= k < |Current.suffixes| ==> !EndsWith(token, Current.suffixes[k].0))
        ==> TokenStopId(Current, token) == Fatal(UnknownSuffix)
  {
    LookupFinds(Current.prefixes, token, false);
    LookupFinds(Current.suffixes, token, true);
  }

  /** Reads an id back into (prefix number, last-letter number, digit run). */
  function DecodeTokenId(id: int): (int, int, int) {
    (id / 100_000 - 1, id % 100_000 / 1_000 - 1, id % 1_000)
  }

  /** Below 1 000 the digit run, the last letter and the prefix each keep
      their own decimal places, so the id gives all three back and lies in
      [101 000, 504 999]. */
  lemma TokenIdRoundTrip(p: nat, s: nat, n: nat)
    requires p < |Current.prefixes| && s < |Current.suffixes| && n < 1_000
    ensures DecodeTokenId(TokenId(p, s, n)) == (p, s, n)
    ensures 101_000 <= TokenId(p, s, n) <= 504_999
  {
  }

  /** Below 1 000, distinct (prefix, last letter, digit run) triples give
      distinct ids. */
  lemma TokenIdInjective(p1: nat, s1: nat, n1: nat, p2: nat, s2: nat, n2: nat)
    requires p1 < |Current.prefixes| && s1 < |Current.suffixes| && n1 < 1_000
    requires p2 < |Current.prefixes| && s2 < |Current.suffixes| && n2 < 1_000
    ensures TokenId(p1, s1, n1) == TokenId(p2, s2, n2) <==> p1 == p2 && s1 == s2 && n1 == n2
  {
    TokenIdRoundTrip(p1, s1, n1);
    TokenIdRoundTrip(p2, s2, n2);
  }

  /** From 1 000 on, the digit run reaches into the last letter's place:
      "BLA1000A" and "BLA0B" share an id. */
  lemma TokenIdCollision()
    ensures TokenId(0, 0, 1_000) == TokenId(0, 1, 0)
  {
  }

  /** The ids the token path returns are these sums: a token with prefix p,
      last letter s and a digit run n below 1 000 resolves to TokenId(p, s, n). */
  lemma TokenIdResolved(token: string, p: nat, s: nat, n: nat)
    requires p < |Current.prefixes| && s < |Current.suffixes|
    requires StartsWith(token, Current.prefixes[p].0) && EndsWith(token, Current.suffixes[s].0)
    requires FirstNumber(token) == Some(n) && n < 1_000
    ensures TokenStopId(Current, token) == Ok(TokenId(p, s, n))
  {
    CurrentTokenNoWrap(token, p, s, n);
  }

  /** Two tokens whose digit runs are below 1 000 get the same stop id
      exactly when they share prefix, last letter and digit run. */
  lemma ResolvedIdsInjective(t1: string, p1: nat, s1: nat, n1: nat, t2: string, p2: nat, s2: nat, n2: nat)
    requires p1 < |Current.prefixes| && s1 < |Current.suffixes|
    requires StartsWith(t1, Current.prefixes[p1].0) && EndsWith(t1, Current.suffixes[s1].0)
    requires FirstNumber(t1) == Some(n1) && n1 < 1_000
    requires p2 < |Current.prefixes| && s2 < |Current.suffixes|
    requires StartsWith(t2, Current.prefixes[p2].0) && EndsWith(t2, Current.suffixes[s2].0)
    requires FirstNumber(t2) == Some(n2) && n2 < 1_000
    ensures TokenStopId(Current, t1) == TokenStopId(Current, t2) <==> p1 == p2 && s1 == s2 && n1 == n2
  {
    TokenIdResolved(t1, p1, s1, n1);
    TokenIdResolved(t2, p2, s2, n2);
    TokenIdInjective(p1, s1, n1, p2, s2, n2);
  }

  /** A "BLA…A" token with the run 1000 and a "BLA…B" token with the run 0
      both resolve, to the same stop id. */
  lemma ResolvedIdsCollide(t1: string, t2: string)
    requires StartsWith(t1, "BLA") && EndsWith(t1, "A") && FirstNumber(t1) == Some(1_000)
    requires StartsWith(t2, "BLA") && EndsWith(t2, "B") && FirstNumber(t2) == Some(0)
    ensures TokenStopId(Current, t1).Ok? && TokenStopId(Current, t1) == TokenStopId(Current, t2)
  {
    CurrentTokenNoWrap(t1, 0, 0, 1_000);
    CurrentTokenNoWrap(t2, 0, 1, 0);
    TokenIdCollision();
  }

  // ----------------------------------------------------------- label rewrites

  /** The framework's label helpers, whose bodies are not part of this
      model: only their place in each pipeline is. */
  datatype Library = Library(
    saint: string -> string,                 // CleanUtils.SAINT, replaced by SAINT_REPLACEMENT
    point: string -> string,                 // CleanUtils.POINT, replaced by POINT_REPLACEMENT
    cleanEt: string -> string,               // CleanUtils.CLEAN_ET, replaced by CLEAN_ET_REPLACEMENT
    cleanLabel: string -> string,
    keepToFR: string -> string,
    removeVia: string -> string,
    cleanBoundsFR: string -> string,         // cleanBounds(Locale.FRENCH, _)
    cleanStreetTypesFRCA: string -> string,
    cleanLabelFR: string -> string,
    removeDevant: string -> string)          // cleanWordsFR("devant"), replaced by ""

  /** `(\(métro )` with CASE_INSENSITIVE | UNICODE_CASE. */
  const Metro := Pattern(["(métro "], Latin1Fold, false)
  /** `(- de[s]? )`: the greedy `[s]?` tries "des " before "de ". */
  const DashDes := Pattern(["- des ", "- de "], AsciiFold, false)
  const SudVersNord := Pattern([SudVersNordPhrase], AsciiFold, false)
  const NordVersSud := Pattern([NordVersSudPhrase], AsciiFold, false)

  /** The two Boisbriand phrases of cleanRouteLongName and their short forms. */
  const SudVersNordPhrase := "Boisbriand Sud Vers Boisbriand Nord"
  const SudToNord := "Boisbriand Sud => Nord"
  const NordVersSudPhrase := "Boisbriand Nord Vers Boisbriand Sud"
  const NordToSud := "Boisbriand Nord => Sud"

  /** The agency's own steps of cleanRouteLongName, in order. */
  const RouteLongNameRules := [
    Rule(Metro, "("),
    Rule(DashDes, "- "),
    Rule(SudVersNord, "Boisbriand Sud => Nord"),
    Rule(NordVersSud, NordToSud)]

  /** cleanRouteLongName: the library's saint, point and "et" steps, the
      agency's rules in order, then cleanLabel. A name that holds none of the
      rule patterns after the first three steps reaches cleanLabel as it is. */
  function CleanRouteLongName(lib: Library, routeLongName: string): (r: string)
    ensures var t := lib.cleanEt(lib.point(lib.saint(routeLongName)));
      (forall k :: 0 <= k < |RouteLongNameRules| ==> !Occurs(t, RouteLongNameRules[k].pattern)) ==>
        r == lib.cleanLabel(t)
  {
    lib.cleanLabel(ApplyRules(lib.cleanEt(lib.point(lib.saint(routeLongName))), RouteLongNameRules))
  }

  /** `( - )`, case-sensitive. */
  const Dash := Pattern([" - "], Exact, false)
  /** `(express )` with CASE_INSENSITIVE. */
  const Express := Pattern(["express "], AsciiFold, false)

  /** The first two steps of cleanTripHeadsign: "from - to" becomes
      "from<>to", then every "express " is deleted. */
  const HeadsignRules := [Rule(Dash, "<>"), Rule(Express, "")]

  /** The agency's own steps of cleanTripHeadsign, before the library's: the
      dash join, the "express " deletion, then the civique rule. A headsign
      without " - ", "express " or "civique " passes unchanged. */
  function HeadsignRewrites(tripHeadsign: string): (r: string)
    ensures !Occurs(tripHeadsign, Dash) && !Occurs(tripHeadsign, Express) && !Occurs(tripHeadsign, Keyword) ==>
      r == tripHeadsign
  {
    assert HeadsignRules[0].pattern == Dash && HeadsignRules[1].pattern == Express;
    ReplaceCivique(ApplyRules(tripHeadsign, HeadsignRules))
  }

  /** cleanTripHeadsign: the agency's steps, then keepToFR, removeVia, point,
      cleanBounds, cleanStreetTypesFRCA and cleanLabelFR, in that order. */
  function CleanTripHeadsign(lib: Library, tripHeadsign: string): (r: string)
    ensures !Occurs(tripHeadsign, Dash) && !Occurs(tripHeadsign, Express) && !Occurs(tripHeadsign, Keyword) ==>
      r == lib.cleanLabelFR(lib.cleanStreetTypesFRCA(lib.cleanBoundsFR(lib.point(lib.removeVia(lib.keepToFR(tripHeadsign))))))
  {
    var h := HeadsignRewrites(tripHeadsign);
    lib.cleanLabelFR(lib.cleanStreetTypesFRCA(lib.cleanBoundsFR(lib.point(lib.removeVia(lib.keepToFR(h))))))
  }

  /** `^(face à )`, `^(face au )`, `^(face )`, in array order. */
  const StartWithFaces := [
    Pattern(["face à "], Latin1Fold, true),
    Pattern(["face au "], Latin1Fold, true),
    Pattern(["face "], Latin1Fold, true)]

  /** `( face à )`, `( face au )`, `( face )`, in array order. */
  const SpaceFaces := [
    Pattern([" face à "], Latin1Fold, false),
    Pattern([" face au "], Latin1Fold, false),
    Pattern([" face "], Latin1Fold, false)]

  /** The two face removals of cleanStopName, each replacing by a space:
      first the start-anchored array, then the space-delimited one. A name
      that holds none of the six patterns passes unchanged. */
  function RemoveFaces(s: string): (r: string)
    ensures
      && (forall k :: 0 <= k < |StartWithFaces| ==> !Occurs(s, StartWithFaces[k]))
      && (forall k :: 0 <= k < |SpaceFaces| ==> !Occurs(s, SpaceFaces[k]))
      ==> r == s
  {
    ReplaceEach(ReplaceEach(s, StartWithFaces, " "), SpaceFaces, " ")
  }

  /** The face patterns all need an 'f' (in either case), so a name without
      'f' or 'F' keeps its text. */
  lemma RemoveFacesWithoutF(s: string)
    requires forall i :: 0 <= i < |s| ==> s[i] !in "fF"
    ensures RemoveFaces(s) == s
  {
    forall k | 0 <= k < |StartWithFaces|
      ensures !Occurs(s, StartWithFaces[k])
    {
      assert StartWithFaces[k].alts == [StartWithFaces[k].alts[0]] && StartWithFaces[k].alts[0][0] == 'f';
      AbsentWithout(s, StartWithFaces[k], 'f');
    }
    forall k | 0 <= k < |SpaceFaces|
      ensures !Occurs(s, SpaceFaces[k])
    {
      assert SpaceFaces[k].alts == [SpaceFaces[k].alts[0]] && SpaceFaces[k].alts[0][1] == 'f';
      AbsentWithout(s, SpaceFaces[k], 'f');
    }
  }

  /** Proof helper: the start-anchored face patterns, written out in array
      order. */
  lemma StartFacesSteps(s: string)
    ensures ReplaceEach(s, StartWithFaces, " ")
         == ReplaceAll(ReplaceAll(ReplaceAll(s, StartWithFaces[0], " "), StartWithFaces[1], " "), StartWithFaces[2], " ")
  {
    var ps := StartWithFaces;
    var s1 := ReplaceAll(s, ps[0], " ");
    var s2 := ReplaceAll(s1, ps[1], " ");
    var s3 := ReplaceAll(s2, ps[2], " ");
    assert ReplaceEach(s, ps, " ") == ReplaceEach(s1, ps[1..], " ");
    assert ps[1..][0] == ps[1];
    assert ReplaceEach(s1, ps[1..], " ") == ReplaceEach(s2, ps[2..], " ");
    assert ps[2..][0] == ps[2];
    assert ReplaceEach(s2, ps[2..], " ") == ReplaceEach(s3, ps[3..], " ");
    assert ps[3..] == [];
  }

  /** A start-anchored face pattern never matches a text that begins with a space. */
  lemma SpaceHeadNoStartFace(x: string, k: nat)
    requires k < |StartWithFaces|
    ensures ReplaceAll(" " + x, StartWithFaces[k], " ") == " " + x
  {
    var p := StartWithFaces[k];
    assert p.alts == [p.alts[0]] && p.alts[0][0] == 'f';
    SingleMismatch(" " + x, p, 0);
  }

  /** "face au X" loses its "face au ": the "face à " pattern, tried first,
      does not match it (`a` is not `à`), and the shorter "face " is never
      reached, because the text then begins with a space. */
  lemma StartFaceAu(x: string, ps: seq<Pattern>)
    requires ps == StartWithFaces
    ensures ReplaceEach("face au " + x, ps, " ") == " " + x
  {
    var t := "face au " + x;
    ReplaceEachThree(t, ps, " ");
    assert ps[0].alts == ["face à "] && t[5] == 'a';
    SingleMismatch(t, ps[0], 5);
    assert ReplaceAll(t, ps[0], " ") == t;
    assert t[..8] == "face au " && t[8..] == x;
    SingleMatch(t, ps[1]);
    FoldPrefixSelf(t, "face au ", Latin1Fold);
    assert ReplaceAll(t, ps[1], " ") == " " + x;
    SpaceHeadNoStartFace(x, 2);
  }

  /** The space-bounded face patterns all need an 'f'. */
  lemma SpaceFacesKeep(s: string, ps: seq<Pattern>)
    requires ps == SpaceFaces
    requires forall i :: 0 <= i < |s| ==> s[i] !in "fF"
    ensures ReplaceEach(s, ps, " ") == s
  {
    forall k | 0 <= k < |ps|
      ensures !Occurs(s, ps[k])
    {
      assert ps[k].alts == [ps[k].alts[0]] && ps[k].alts[0][1] == 'f';
      AbsentWithout(s, ps[k], 'f');
    }
    ReplaceEachAbsent(s, ps, " ");
  }

  /** The start-anchored face patterns need an 'f' at index 0. */
  lemma StartFacesKeep(s: string, ps: seq<Pattern>)
    requires ps == StartWithFaces
    requires |s| == 0 || (s[0] != 'f' && s[0] != 'F')
    ensures ReplaceEach(s, ps, " ") == s
  {
    forall k | 0 <= k < |ps|
      ensures Match(s, ps[k]).None?
    {
      assert ps[k].alts == [ps[k].alts[0]] && ps[k].alts[0][0] == 'f';
      SingleMismatch(s, ps[k], 0);
    }
    ReplaceEachThree(s, ps, " ");
  }

  /** When the start-anchored step leaves a text without 'f' or 'F', that text is
      the whole result. */
  lemma RemoveFacesAfterStart(t: string, x: string, ps: seq<Pattern>)
    requires ps == StartWithFaces && ReplaceEach(t, ps, " ") == " " + x
    requires forall i :: 0 <= i < |x| ==> x[i] !in "fF"
    ensures RemoveFaces(t) == " " + x
  {
    SpaceJoinNoF("", x);
    assert "" + " " + x == " " + x;
    SpaceFacesKeep(" " + x, SpaceFaces);
  }

  lemma StartFaceASteps(x: string, ps: seq<Pattern>)
    requires ps == StartWithFaces
    ensures ReplaceEach("face à " + x, ps, " ") == " " + x
  {
    var t := "face à " + x;
    ReplaceEachThree(t, ps, " ");
    assert ps[0].alts == ["face à "];
    assert t[..7] == "face à " && t[7..] == x;
    SingleMatch(t, ps[0]);
    FoldPrefixSelf(t, "face à ", Latin1Fold);
    assert ReplaceAll(t, ps[0], " ") == " " + x;
    SpaceHeadNoStartFace(x, 1);
    SpaceHeadNoStartFace(x, 2);
  }

  /** A leading "face à " becomes one space; nothing else of the name changes. */
  lemma StartFaceA(x: string)
    requires forall i :: 0 <= i < |x| ==> x[i] !in "fF"
    ensures RemoveFaces("face à " + x) == " " + x
  {
    StartFaceASteps(x, StartWithFaces);
    RemoveFacesAfterStart("face à " + x, x, StartWithFaces);
  }

  lemma StartFaceOnlySteps(x: string, ps: seq<Pattern>)
    requires ps == StartWithFaces
    requires |x| == 0 || x[0] !in "aAàÀ"
    ensures ReplaceEach("face " + x, ps, " ") == " " + x
  {
    var t := "face " + x;
    ReplaceEachThree(t, ps, " ");
    assert ps[0].alts == ["face à "] && ps[1].alts == ["face au "] && ps[2].alts == ["face "];
    SingleMismatch(t, ps[0], 5);
    SingleMismatch(t, ps[1], 5);
    assert t[..5] == "face " && t[5..] == x;
    SingleMatch(t, ps[2]);
    FoldPrefixSelf(t, "face ", Latin1Fold);
  }

  /** A leading "face au " becomes one space; nothing else of the name changes. */
  lemma StartFaceAuRemoved(x: string)
    requires forall i :: 0 <= i < |x| ==> x[i] !in "fF"
    ensures RemoveFaces("face au " + x) == " " + x
  {
    StartFaceAu(x, StartWithFaces);
    RemoveFacesAfterStart("face au " + x, x, StartWithFaces);
  }

  /** A leading "face " becomes one space when the word after it is neither
      "à" nor "au" (those are the two longer patterns tried first). */
  lemma StartFaceOnly(x: string)
    requires forall i :: 0 <= i < |x| ==> x[i] !in "fF"
    requires |x| == 0 || x[0] !in "aAàÀ"
    ensures RemoveFaces("face " + x) == " " + x
  {
    StartFaceOnlySteps(x, StartWithFaces);
    RemoveFacesAfterStart("face " + x, x, StartWithFaces);
  }

  /** Joining two texts without 'f' or 'F' by a space gives such a text. */
  lemma SpaceJoinNoF(x: string, y: string)
    requires forall i :: 0 <= i < |x| ==> x[i] !in "fF"
    requires forall i :: 0 <= i < |y| ==> y[i] !in "fF"
    ensures forall i :: 0 <= i < |x + " " + y| ==> (x + " " + y)[i] !in "fF"
  {
    forall i | 0 <= i < |x + " " + y|
      ensures (x + " " + y)[i] !in "fF"
    {
      if i < |x| {
        assert (x + " " + y)[i] == x[i];
      } else if i > |x| {
        assert (x + " " + y)[i] == y[i - |x| - 1];
      }
    }
  }

  /** A space-bounded face pattern that stands after a text without 'f' or 'F'
      becomes one space. */
  lemma SpaceFaceStep(x: string, y: string, q: Pattern, w: string)
    requires q.alts == [w] && |w| > 1 && w[0] == ' ' && w[1] == 'f' && q.mode == Latin1Fold && !q.anchored
    requires forall i :: 0 <= i < |x| ==> x[i] !in "fF"
    requires forall i :: 0 <= i < |y| ==> y[i] !in "fF"
    ensures ReplaceAll(x + w + y, q, " ") == x + " " + y
  {
    NoMatchBeforeAt(x, w, y, q, 1);
    assert (w + y)[..|w|] == w;
    FirstAltMatch(w + y, q);
    AbsentWithout(y, q, 'f');
    ReplaceScanSplit(x, w, y, q, " ");
  }

  /** A space-bounded face pattern does not occur around a face word `w`
      whose only 'f' it would have to match, when the two differ at index 6. */
  lemma SpaceFaceMiss(x: string, y: string, q: Pattern, w: string)
    requires |q.alts| == 1 && |q.alts[0]| > 6 && q.alts[0][1] == 'f' && q.mode == Latin1Fold && !q.anchored
    requires |w| > 1 && w[1] == 'f' && forall i :: 0 <= i < |w| && i != 1 ==> w[i] !in "fF"
    requires forall i :: 0 <= i < |x| ==> x[i] !in "fF"
    requires forall i :: 0 <= i < |y| ==> y[i] !in "fF"
    requires 6 >= |w + y| || !CharEq((w + y)[6], q.alts[0][6], q.mode)
    ensures ReplaceAll(x + w + y, q, " ") == x + w + y
  {
    var s := x + w + y;
    forall i | 0 <= i < |s| && i != |x| + 1
      ensures !CharEq(s[i], 'f', q.mode)
    {
      if i < |x| {
        assert s[i] == x[i];
      } else if i < |x| + |w| {
        assert s[i] == w[i - |x|];
      } else {
        assert s[i] == y[i - |x| - |w|];
      }
    }
    MatchOnlyAt(s, q, 1, |x| + 1);
    assert s[|x|..] == w + y;
    SingleMismatch(w + y, q, 6);
    ReplaceScanNone(s, q, " ");
  }

  /** The head of x + w + y cannot start a face pattern when x and w do not
      begin with 'f'. */
  lemma NoLeadingF(x: string, w: string, y: string)
    requires |w| > 0 && w[0] == ' '
    requires forall i :: 0 <= i < |x| ==> x[i] !in "fF"
    ensures |x + w + y| > 0 && (x + w + y)[0] != 'f' && (x + w + y)[0] != 'F'
  {
    if |x| > 0 {
      assert (x + w + y)[0] == x[0];
    } else {
      assert (x + w + y)[0] == w[0];
    }
  }

  lemma SpaceFaceASteps(x: string, y: string, ps: seq<Pattern>)
    requires ps == SpaceFaces
    requires forall i :: 0 <= i < |x| ==> x[i] !in "fF"
    requires forall i :: 0 <= i < |y| ==> y[i] !in "fF"
    ensures ReplaceEach(x + " face à " + y, ps, " ") == x + " " + y
  {
    var w := " face à ";
    var s, r := x + w + y, x + " " + y;
    SpaceFaceStep(x, y, ps[0], w);
    SpaceJoinNoF(x, y);
    AbsentWithout(r, ps[1], 'f');
    AbsentWithout(r, ps[2], 'f');
    ReplaceEachThreeSteps(s, ps, " ", r, r, r);
  }

  /** " face à " inside a stop name becomes one space. */
  lemma SpaceFaceAInside(x: string, y: string)
    requires forall i :: 0 <= i < |x| ==> x[i] !in "fF"
    requires forall i :: 0 <= i < |y| ==> y[i] !in "fF"
    ensures RemoveFaces(x + " face à " + y) == x + " " + y
  {
    NoLeadingF(x, " face à ", y);
    StartFacesKeep(x + " face à " + y, StartWithFaces);
    SpaceFaceASteps(x, y, SpaceFaces);
  }

  /** " face à " and " face au " do not occur around " face au ". */
  lemma SpaceFaceAuMiss(x: string, y: string, q: Pattern, w: string)
    requires q == Pattern([" face à "], Latin1Fold, false) && w == " face au "
    requires forall i :: 0 <= i < |x| ==> x[i] !in "fF"
    requires forall i :: 0 <= i < |y| ==> y[i] !in "fF"
    ensures ReplaceAll(x + w + y, q, " ") == x + w + y
  {
    assert w[1] == 'f' && forall i :: 0 <= i < |w| && i != 1 ==> w[i] !in "fF";
    assert (w + y)[6] == 'a' && q.alts[0][6] == 'à';
    SpaceFaceMiss(x, y, q, w);
  }

  /** The two longer space-bounded patterns do not occur around a " face "
      that is not followed by "a" or "à". */
  lemma SpaceFaceOnlyMiss(x: string, y: string, q: Pattern, w: string)
    requires q == Pattern([" face à "], Latin1Fold, false) || q == Pattern([" face au "], Latin1Fold, false)
    requires w == " face "
    requires forall i :: 0 <= i < |x| ==> x[i] !in "fF"
    requires forall i :: 0 <= i < |y| ==> y[i] !in "fF"
    requires |y| == 0 || y[0] !in "aAàÀ"
    ensures ReplaceAll(x + w + y, q, " ") == x + w + y
  {
    assert w[1] == 'f' && forall i :: 0 <= i < |w| && i != 1 ==> w[i] !in "fF";
    assert |y| > 0 ==> (w + y)[6] == y[0];
    assert q.alts[0][6] in "aà";
    SpaceFaceMiss(x, y, q, w);
  }

  lemma SpaceFaceAuHit(x: string, y: string, ps: seq<Pattern>)
    requires ps == SpaceFaces
    requires forall i :: 0 <= i < |x| ==> x[i] !in "fF"
    requires forall i :: 0 <= i < |y| ==> y[i] !in "fF"
    ensures ReplaceAll(x + " face au " + y, ps[0], " ") == x + " face au " + y
    ensures ReplaceAll(x + " face au " + y, ps[1], " ") == x + " " + y
  {
    SpaceFaceAuMiss(x, y, ps[0], " face au ");
    SpaceFaceStep(x, y, ps[1], " face au ");
  }

  lemma SpaceFaceAuSteps(x: string, y: string, ps: seq<Pattern>)
    requires ps == SpaceFaces
    requires forall i :: 0 <= i < |x| ==> x[i] !in "fF"
    requires forall i :: 0 <= i < |y| ==> y[i] !in "fF"
    ensures ReplaceEach(x + " face au " + y, ps, " ") == x + " " + y
  {
    var s, r := x + " face au " + y, x + " " + y;
    SpaceFaceAuHit(x, y, ps);
    SpaceJoinNoF(x, y);
    AbsentWithout(r, ps[2], 'f');
    ReplaceEachThreeSteps(s, ps, " ", s, r, r);
  }

  /** " face au " inside a stop name becomes one space: " face à ", tried
      first, fails on the 'a'. */
  lemma SpaceFaceAuInside(x: string, y: string)
    requires forall i :: 0 <= i < |x| ==> x[i] !in "fF"
    requires forall i :: 0 <= i < |y| ==> y[i] !in "fF"
    ensures RemoveFaces(x + " face au " + y) == x + " " + y
  {
    NoLeadingF(x, " face au ", y);
    StartFacesKeep(x + " face au " + y, StartWithFaces);
    SpaceFaceAuSteps(x, y, SpaceFaces);
  }

  lemma SpaceFaceOnlySteps(x: string, y: string, ps: seq<Pattern>)
    requires ps == SpaceFaces
    requires forall i :: 0 <= i < |x| ==> x[i] !in "fF"
    requires forall i :: 0 <= i < |y| ==> y[i] !in "fF"
    requires |y| == 0 || y[0] !in "aAàÀ"
    ensures ReplaceEach(x + " face " + y, ps, " ") == x + " " + y
  {
    var w := " face ";
    var s := x + w + y;
    SpaceFaceOnlyMiss(x, y, ps[0], w);
    SpaceFaceOnlyMiss(x, y, ps[1], w);
    SpaceFaceStep(x, y, ps[2], w);
    ReplaceEachThreeSteps(s, ps, " ", s, s, x + " " + y);
  }

  /** " face " inside a stop name becomes one space when the word after it
      is neither "à" nor "au". */
  lemma SpaceFaceOnlyInside(x: string, y: string)
    requires forall i :: 0 <= i < |x| ==> x[i] !in "fF"
    requires forall i :: 0 <= i < |y| ==> y[i] !in "fF"
    requires |y| == 0 || y[0] !in "aAàÀ"
    ensures RemoveFaces(x + " face " + y) == x + " " + y
  {
    NoLeadingF(x, " face ", y);
    StartFacesKeep(x + " face " + y, StartWithFaces);
    SpaceFaceOnlySteps(x, y, SpaceFaces);
  }

  /** cleanStopName: " - " becomes a space, then "devant" is removed, then
      the civique rule, the face removals, cleanStreetTypesFRCA and
      cleanLabelFR run in that order. A name without " - " whose "devant"
      removal holds neither "civique " nor a face pattern only goes through
      the library steps. */
  function CleanStopName(lib: Library, stopName: string): (r: string)
    ensures var d := lib.removeDevant(stopName);
      && !Occurs(stopName, Dash) && !Occurs(d, Keyword)
      && (forall k :: 0 <= k < |StartWithFaces| ==> !Occurs(d, StartWithFaces[k]))
      && (forall k :: 0 <= k < |SpaceFaces| ==> !Occurs(d, SpaceFaces[k]))
      ==> r == lib.cleanLabelFR(lib.cleanStreetTypesFRCA(d))
  {
    var s := ReplaceCivique(lib.removeDevant(ReplaceAll(stopName, Dash, " ")));
    lib.cleanLabelFR(lib.cleanStreetTypesFRCA(RemoveFaces(s)))
  }

  /** The dash pattern matches exactly the strings that begin with " - ". */
  lemma DashMatch(t: string)
    ensures Match(t, Dash).Some? <==> |t| >= 3 && t[0] == ' ' && t[1] == '-' && t[2] == ' '
    ensures Match(t, Dash).Some? ==> Match(t, Dash).value == 3
  {
    SingleMatch(t, Dash);
    FoldPrefixExact(t, " - ");
    if |t| >= 3 {
      assert t[..3] == [t[0], t[1], t[2]];
    }
  }

  /** The joined headsign begins with '<' or with the headsign's own first character. */
  lemma JoinDashHead(s: string)
    requires |s| > 0
    ensures |ReplaceScan(s, Dash, "<>")| > 0
    ensures ReplaceScan(s, Dash, "<>")[0] == '<' || ReplaceScan(s, Dash, "<>")[0] == s[0]
  {
  }

  /** After the first headsign step no " - " is left: the scan replaces
      every occurrence, and "<>" cannot take part in a new one. */
  lemma {:induction false} JoinDashLeavesNoDash(s: string)
    ensures !Occurs(ReplaceScan(s, Dash, "<>"), Dash)
    decreases |s|
  {
    if |s| > 0 {
      var r := ReplaceScan(s, Dash, "<>");
      DashMatch(s);
      DashMatch(r);
      if Match(s, Dash).Some? {
        var rest := ReplaceScan(s[3..], Dash, "<>");
        JoinDashLeavesNoDash(s[3..]);
        assert r == "<>" + rest;
        assert r[1..] == ">" + rest && r[1..][1..] == rest;
        DashMatch(r[1..]);
      } else {
        var rest := ReplaceScan(s[1..], Dash, "<>");
        JoinDashLeavesNoDash(s[1..]);
        assert r == [s[0]] + rest && r[1..] == rest;
        if Match(r, Dash).Some? {
          JoinDashHead(s[1..]);
          assert s[1] == '-';
          DashMatch(s[1..]);
          assert rest == [s[1]] + ReplaceScan(s[2..], Dash, "<>");
          assert |s| > 2;
          JoinDashHead(s[2..]);
          assert false;
        }
      }
    }
  }


  // ------------------------------------------------- route long name properties

  // The helpers below take a pattern or a literal as a parameter pinned by
  // `requires p == …`. This keeps the literal's characters out of the
  // callers' proof contexts: only the helper that needs them unfolds them.

  /** Every Boisbriand pattern needs a 'V' (in either case). */
  lemma NoBoisbriandWithout(x: string, p: Pattern)
    requires p == SudVersNord || p == NordVersSud
    requires 'v' !in x && 'V' !in x
    ensures !Occurs(x, p)
  {
    if p == SudVersNord {
      assert p.alts[0][15] == 'V';
    } else {
      assert p.alts[0][16] == 'V';
    }
    assert p.alts == [p.alts[0]];
    AbsentWithout(x, p, 'V');
  }

  lemma NoMetroWithout(x: string, p: Pattern)
    requires p == Metro && '(' !in x
    ensures !Occurs(x, p)
  {
    NoSymbol(x, '(', Latin1Fold);
    AbsentWithout(x, p, '(');
  }

  lemma NoDashDesWithout(x: string, p: Pattern)
    requires p == DashDes && '-' !in x
    ensures !Occurs(x, p)
  {
    NoSymbol(x, '-', AsciiFold);
    assert p.alts == [p.alts[0], p.alts[1]] && p.alts[0][0] == '-' && p.alts[1][0] == '-';
    AbsentWithout(x, p, '-');
  }

  /** The dash-de step on "u- des v": the longer alternative "- des " is
      tried first, so the whole "- des " becomes "- ". */
  lemma DashDesStep(u: string, v: string, p: Pattern, w: string)
    requires p == DashDes && w == "- des "
    requires '-' !in u && '-' !in v
    ensures ReplaceScan(u + w + v, p, "- ") == u + "- " + v
  {
    NoSymbol(u, '-', AsciiFold);
    assert p.alts == [p.alts[0], p.alts[1]] && p.alts[0][0] == '-' && p.alts[1][0] == '-';
    NoMatchBefore(u, w, v, p, '-');
    assert (w + v)[..6] == w;
    FirstAltMatch(w + v, p);
    NoDashDesWithout(v, p);
    ReplaceScanSplit(u, w, v, p, "- ");
  }

  /** The Sud-vers-Nord step on "u PHRASE v". */
  lemma SudVersNordStep(u: string, v: string, p: Pattern, w: string)
    requires p == SudVersNord && w == SudVersNordPhrase
    requires 'b' !in u && 'B' !in u && 'v' !in v && 'V' !in v
    ensures ReplaceScan(u + w + v, p, SudToNord) == u + SudToNord + v
  {
    NoLetter(u, 'b', AsciiFold);
    assert p.alts == [w] && w[0] == 'B';
    NoMatchBefore(u, w, v, p, 'B');
    assert (w + v)[..|w|] == w;
    FirstAltMatch(w + v, p);
    NoBoisbriandWithout(v, p);
    ReplaceScanSplit(u, w, v, p, SudToNord);
  }

  lemma AroundPhrase(u: string, v: string, w: string, t: string)
    requires w == SudVersNordPhrase && t == SudToNord
    requires '(' !in u && '-' !in u && 'v' !in u && 'V' !in u
    requires '(' !in v && '-' !in v && 'v' !in v && 'V' !in v
    ensures '(' !in u + w + v && '-' !in u + w + v
    ensures 'v' !in u + t + v && 'V' !in u + t + v
  {
    PhraseChars(w, t);
  }

  lemma PhraseChars(w: string, t: string)
    requires w == SudVersNordPhrase && t == SudToNord
    ensures forall i :: 0 <= i < |w| ==> w[i] !in "(-tT"
    ensures forall i :: 0 <= i < |t| ==> t[i] !in "vV"
  {
  }

  /** Proof helper: the route long name rules, written out step by step. */
  lemma RouteLongNameSteps(s: string)
    ensures ApplyRules(s, RouteLongNameRules)
         == ReplaceScan(ReplaceScan(ReplaceScan(ReplaceScan(s, Metro, "("), DashDes, "- "),
                                    SudVersNord, SudToNord), NordVersSud, NordToSud)
  {
    var rules := RouteLongNameRules;
    var s1 := ReplaceScan(s, Metro, "(");
    var s2 := ReplaceScan(s1, DashDes, "- ");
    var s3 := ReplaceScan(s2, SudVersNord, SudToNord);
    var s4 := ReplaceScan(s3, NordVersSud, NordToSud);
    assert rules[0] == Rule(Metro, "(") && !Metro.anchored;
    assert ApplyRules(s, rules) == ApplyRules(s1, rules[1..]);
    assert rules[1..][0] == Rule(DashDes, "- ") && !DashDes.anchored;
    assert ApplyRules(s1, rules[1..]) == ApplyRules(s2, rules[2..]);
    assert rules[2..][0] == Rule(SudVersNord, SudToNord) && !SudVersNord.anchored;
    assert ApplyRules(s2, rules[2..]) == ApplyRules(s3, rules[3..]);
    assert rules[3..][0] == Rule(NordVersSud, NordToSud) && !NordVersSud.anchored;
    assert ApplyRules(s3, rules[3..]) == ApplyRules(s4, rules[4..]);
    assert rules[4..] == [];
  }

  lemma DashDesScans(u: string, v: string, w: string)
    requires w == "- des "
    requires '(' !in u && '-' !in u && 'v' !in u && 'V' !in u
    requires '(' !in v && '-' !in v && 'v' !in v && 'V' !in v
    ensures ReplaceScan(ReplaceScan(ReplaceScan(ReplaceScan(u + w + v, Metro, "("), DashDes, "- "),
                                    SudVersNord, SudToNord), NordVersSud, NordToSud)
         == u + "- " + v
  {
    var r := u + "- " + v;
    assert '(' !in w;
    NoMetroWithout(u + w + v, Metro);
    DashDesStep(u, v, DashDes, w);
    NoBoisbriandWithout(r, SudVersNord);
    NoBoisbriandWithout(r, NordVersSud);
  }

  lemma BoisbriandScans(u: string, v: string, w: string)
    requires w == SudVersNordPhrase
    requires '(' !in u && '-' !in u && 'b' !in u && 'B' !in u && 'v' !in u && 'V' !in u
    requires '(' !in v && '-' !in v && 'v' !in v && 'V' !in v
    ensures ReplaceScan(ReplaceScan(ReplaceScan(ReplaceScan(u + w + v, Metro, "("), DashDes, "- "),
                                    SudVersNord, SudToNord), NordVersSud, NordToSud)
         == u + SudToNord + v
  {
    var s := u + w + v;
    var r := u + SudToNord + v;
    AroundPhrase(u, v, w, SudToNord);
    NoMetroWithout(s, Metro);
    NoDashDesWithout(s, DashDes);
    SudVersNordStep(u, v, SudVersNord, w);
    NoBoisbriandWithout(r, NordVersSud);
  }

  /** "… - des X" becomes "… - X" for every X: the greedy `de[s]?` takes
      the 's' too, so nothing of "des" is left. */
  lemma DashDesShortened(u: string, v: string)
    requires '(' !in u && '-' !in u && 'v' !in u && 'V' !in u
    requires '(' !in v && '-' !in v && 'v' !in v && 'V' !in v
    ensures ApplyRules(u + "- des " + v, RouteLongNameRules) == u + "- " + v
  {
    RouteLongNameSteps(u + "- des " + v);
    DashDesScans(u, v, "- des ");
  }

  /** "Boisbriand Sud Vers Boisbriand Nord" becomes "Boisbriand Sud => Nord"
      wherever it stands in a name, for any text around it that holds no
      other rewrite (no '(', '-' or 'V', and no 'B' before it). */
  lemma BoisbriandInside(u: string, v: string)
    requires '(' !in u && '-' !in u && 'b' !in u && 'B' !in u && 'v' !in u && 'V' !in u
    requires '(' !in v && '-' !in v && 'v' !in v && 'V' !in v
    ensures ApplyRules(u + SudVersNordPhrase + v, RouteLongNameRules) == u + SudToNord + v
  {
    RouteLongNameSteps(u + SudVersNordPhrase + v);
    BoisbriandScans(u, v, SudVersNordPhrase);
  }

  /** The métro step on "u(métro v": the whole "(métro " becomes "(". */
  lemma MetroStep(u: string, v: string, p: Pattern, w: string)
    requires p == Metro && w == "(métro "
    requires '(' !in u && '(' !in v
    ensures ReplaceScan(u + w + v, p, "(") == u + "(" + v
  {
    NoSymbol(u, '(', Latin1Fold);
    assert p.alts == [w] && w[0] == '(';
    NoMatchBefore(u, w, v, p, '(');
    assert (w + v)[..|w|] == w;
    FirstAltMatch(w + v, p);
    NoMetroWithout(v, p);
    ReplaceScanSplit(u, w, v, p, "(");
  }

  lemma MetroScans(u: string, v: string, w: string)
    requires w == "(métro "
    requires '(' !in u && '-' !in u && 'v' !in u && 'V' !in u
    requires '(' !in v && '-' !in v && 'v' !in v && 'V' !in v
    ensures ReplaceScan(ReplaceScan(ReplaceScan(ReplaceScan(u + w + v, Metro, "("), DashDes, "- "),
                                    SudVersNord, SudToNord), NordVersSud, NordToSud)
         == u + "(" + v
  {
    var r := u + "(" + v;
    MetroStep(u, v, Metro, w);
    assert '-' !in r && 'v' !in r && 'V' !in r;
    NoDashDesWithout(r, DashDes);
    NoBoisbriandWithout(r, SudVersNord);
    NoBoisbriandWithout(r, NordVersSud);
  }

  /** "(métro X" becomes "(X" for any text around it that holds no other
      rewrite (no further '(', no '-' and no 'V'). */
  lemma MetroShortened(u: string, v: string)
    requires '(' !in u && '-' !in u && 'v' !in u && 'V' !in u
    requires '(' !in v && '-' !in v && 'v' !in v && 'V' !in v
    ensures ApplyRules(u + "(métro " + v, RouteLongNameRules) == u + "(" + v
  {
    RouteLongNameSteps(u + "(métro " + v);
    MetroScans(u, v, "(métro ");
  }

  lemma NordPhraseChars(w: string, t: string)
    requires w == NordVersSudPhrase && t == NordToSud
    ensures forall i :: 0 <= i < |w| ==> w[i] !in "(-tT"
    ensures forall i :: 0 <= i < |w| && i != 16 ==> w[i] !in "vV"
    ensures |w| == 35 && w[0] == 'B' && w[1] == 'o'
    ensures forall i :: 0 <= i < |t| ==> t[i] !in "vV"
  {
  }

  /** The Sud-vers-Nord pattern does not occur around the Nord-vers-Sud
      phrase: its 'V' would have to stand at the phrase's only 'V', and the
      'B' fifteen places before it is then an 'o'. */
  lemma SudVersNordAbsent(u: string, v: string, w: string, p: Pattern)
    requires p == SudVersNord && w == NordVersSudPhrase
    requires 'v' !in u && 'V' !in u && 'v' !in v && 'V' !in v
    ensures ReplaceScan(u + w + v, p, SudToNord) == u + w + v
  {
    var s := u + w + v;
    NordPhraseChars(w, NordToSud);
    assert p.alts == [p.alts[0]] && p.alts[0][15] == 'V' && p.alts[0][0] == 'B';
    forall i | 0 <= i < |s| && i != |u| + 16
      ensures !CharEq(s[i], 'V', AsciiFold)
    {
      if i < |u| {
        assert s[i] == u[i];
      } else if i < |u| + |w| {
        assert s[i] == w[i - |u|];
      } else {
        assert s[i] == v[i - |u| - |w|];
      }
    }
    MatchOnlyAt(s, p, 15, |u| + 16);
    forall j | 0 <= j < |s|
      ensures Match(s[j..], p).None?
    {
      if j == |u| + 1 {
        assert s[j..][0] == w[1];
        SingleMismatch(s[j..], p, 0);
      }
    }
    ReplaceScanNone(s, p, SudToNord);
  }

  /** The Nord-vers-Sud step on "u PHRASE v". */
  lemma NordVersSudStep(u: string, v: string, p: Pattern, w: string)
    requires p == NordVersSud && w == NordVersSudPhrase
    requires 'b' !in u && 'B' !in u && 'v' !in v && 'V' !in v
    ensures ReplaceScan(u + w + v, p, NordToSud) == u + NordToSud + v
  {
    NoLetter(u, 'b', AsciiFold);
    assert p.alts == [w] && w[0] == 'B';
    NoMatchBefore(u, w, v, p, 'B');
    assert (w + v)[..|w|] == w;
    FirstAltMatch(w + v, p);
    NoBoisbriandWithout(v, p);
    ReplaceScanSplit(u, w, v, p, NordToSud);
  }

  lemma NordScans(u: string, v: string, w: string)
    requires w == NordVersSudPhrase
    requires '(' !in u && '-' !in u && 'b' !in u && 'B' !in u && 'v' !in u && 'V' !in u
    requires '(' !in v && '-' !in v && 'v' !in v && 'V' !in v
    ensures ReplaceScan(ReplaceScan(ReplaceScan(ReplaceScan(u + w + v, Metro, "("), DashDes, "- "),
                                    SudVersNord, SudToNord), NordVersSud, NordToSud)
         == u + NordToSud + v
  {
    var s := u + w + v;
    NordPhraseChars(w, NordToSud);
    assert '(' !in s && '-' !in s;
    NoMetroWithout(s, Metro);
    NoDashDesWithout(s, DashDes);
    SudVersNordAbsent(u, v, w, SudVersNord);
    NordVersSudStep(u, v, NordVersSud, w);
  }

  /** "Boisbriand Nord Vers Boisbriand Sud" becomes "Boisbriand Nord => Sud"
      wherever it stands in a name, for the same surrounding text as
      BoisbriandInside; the Sud-vers-Nord step before it leaves it alone. */
  lemma NordVersSudInside(u: string, v: string)
    requires '(' !in u && '-' !in u && 'b' !in u && 'B' !in u && 'v' !in u && 'V' !in u
    requires '(' !in v && '-' !in v && 'v' !in v && 'V' !in v
    ensures ApplyRules(u + NordVersSudPhrase + v, RouteLongNameRules) == u + NordToSud + v
  {
    RouteLongNameSteps(u + NordVersSudPhrase + v);
    NordScans(u, v, NordVersSudPhrase);
  }

  /** The two Boisbriand steps that close both versions' rule lists. */
  lemma BoisbriandTailSteps(s: string)
    ensures ApplyRules(s, RouteLongNameRules[2..])
         == ReplaceScan(ReplaceScan(s, SudVersNord, SudToNord), NordVersSud, NordToSud)
  {
    var rules := RouteLongNameRules[2..];
    var s3 := ReplaceScan(s, SudVersNord, SudToNord);
    assert rules[0] == Rule(SudVersNord, SudToNord) && !SudVersNord.anchored;
    assert ApplyRules(s, rules) == ApplyRules(s3, rules[1..]);
    assert rules[1..][0] == Rule(NordVersSud, NordToSud) && !NordVersSud.anchored;
    assert ApplyRules(s3, rules[1..]) == ApplyRules(ReplaceScan(s3, NordVersSud, NordToSud), rules[2..]);
    assert rules[2..] == [];
  }

  /** Neither short form holds a 'V', so no Boisbriand step applies to it. */
  lemma ShortFormChars(u: string, v: string, t: string)
    requires t == SudToNord || t == NordToSud
    requires 'v' !in u && 'V' !in u && 'v' !in v && 'V' !in v
    ensures 'v' !in u + t + v && 'V' !in u + t + v
  {
  }

  /** The two Boisbriand steps on "u PHRASE v", for the Sud-vers-Nord phrase. */
  lemma SudVersNordTail(u: string, v: string, w: string)
    requires w == SudVersNordPhrase
    requires 'b' !in u && 'B' !in u && 'v' !in u && 'V' !in u && 'v' !in v && 'V' !in v
    ensures ApplyRules(u + w + v, RouteLongNameRules[2..]) == u + SudToNord + v
  {
    BoisbriandTailSteps(u + w + v);
    SudVersNordStep(u, v, SudVersNord, w);
    ShortFormChars(u, v, SudToNord);
    NoBoisbriandWithout(u + SudToNord + v, NordVersSud);
  }

  lemma EmptyAround(x: string)
    ensures [] + x + [] == x
  {
  }

  /** A route long name that is the whole "Sud Vers Nord" phrase becomes
      its short form, provided the saint, point and "et" helpers leave the
      phrase as it is. */
  lemma BoisbriandExample(lib: Library)
    requires lib.cleanEt(lib.point(lib.saint(SudVersNordPhrase))) == SudVersNordPhrase
    ensures CleanRouteLongName(lib, SudVersNordPhrase) == lib.cleanLabel(SudToNord)
  {
    BoisbriandInside([], []);
    EmptyAround(SudVersNordPhrase);
    EmptyAround(SudToNord);
  }

  // ------------------------------------------------------- headsign properties

  /** Proof helper: the headsign steps, written out one by one. */
  lemma HeadsignSteps(h: string)
    ensures HeadsignRewrites(h) == ReplaceCivique(ReplaceScan(ReplaceScan(h, Dash, "<>"), Express, ""))
  {
    var rules := HeadsignRules;
    var h1 := ReplaceScan(h, Dash, "<>");
    var h2 := ReplaceScan(h1, Express, "");
    assert rules[0] == Rule(Dash, "<>") && !Dash.anchored;
    assert ApplyRules(h, rules) == ApplyRules(h1, rules[1..]);
    assert rules[1..][0] == Rule(Express, "") && !Express.anchored;
    assert ApplyRules(h1, rules[1..]) == ApplyRules(h2, rules[2..]);
    assert rules[2..] == [];
  }

  /** After a dash-free part, the first " - " is the first thing the dash
      step rewrites. */
  lemma DashBetween(a: string, b: string, rep: string)
    requires forall i :: 0 <= i < |a| ==> a[i] != '-'
    requires !Occurs(b, Dash)
    ensures ReplaceScan(a + " - " + b, Dash, rep) == a + rep + b
  {
    var s := a + " - " + b;
    forall j | 0 <= j < |a|
      ensures Match(s[j..], Dash).None?
    {
      DashMatch(s[j..]);
      assert s[j..][1] == s[j + 1];
    }
    DashMatch(s[|a|..]);
    assert s[|a|..][..3] == " - ";
    ReplaceScanAtFirst(s, Dash, rep, |a|, 3);
    assert s[..|a|] == a && s[|a| + 3..] == b;
  }

  lemma JoinedChars(a: string, b: string)
    requires forall i :: 0 <= i < |a| ==> a[i] !in "-xXqQ"
    requires forall i :: 0 <= i < |b| ==> b[i] !in "-xXqQ"
    ensures forall i :: 0 <= i < |a + "<>" + b| ==> (a + "<>" + b)[i] !in "xXqQ"
  {
    var j := a + "<>" + b;
    forall i | 0 <= i < |j|
      ensures j[i] !in "xXqQ"
    {
      if i >= |a| + 2 {
        assert j[i] == b[i - |a| - 2];
      } else if i >= |a| {
        assert j[i] in "<>";
      } else {
        assert j[i] == a[i];
      }
    }
  }

  lemma NoExpress(j: string, p: Pattern)
    requires p == Express
    requires forall i :: 0 <= i < |j| ==> j[i] != 'x' && j[i] != 'X'
    ensures !Occurs(j, p)
  {
    assert p.alts == [p.alts[0]] && p.alts[0][1] == 'x';
    AbsentWithout(j, p, 'x');
  }

  lemma NoCivique(j: string, p: Pattern)
    requires p == Keyword
    requires forall i :: 0 <= i < |j| ==> j[i] != 'q' && j[i] != 'Q'
    ensures !Occurs(j, p)
  {
    assert p.alts == [p.alts[0]] && p.alts[0][4] == 'q';
    AbsentWithout(j, p, 'q');
  }

  /** "from - to" becomes "from<>to" before the library steps, for any two
      parts free of '-', 'x' and 'q' (so of " - ", "express " and "civique "). */
  lemma HeadsignJoin(a: string, b: string)
    requires forall i :: 0 <= i < |a| ==> a[i] !in "-xXqQ"
    requires forall i :: 0 <= i < |b| ==> b[i] !in "-xXqQ"
    ensures HeadsignRewrites(a + " - " + b) == a + "<>" + b
  {
    var j := a + "<>" + b;
    HeadsignSteps(a + " - " + b);
    AbsentWithout(b, Dash, '-');
    DashBetween(a, b, "<>");
    JoinedChars(a, b);
    NoExpress(j, Express);
    NoCivique(j, Keyword);
  }

  lemma ExpressAt(t: string)
    requires |t| >= 8 && t[..8] == "express "
    ensures Match(t, Express) == Some(8)
  {
    SingleMatch(t, Express);
    FoldPrefixSelf(t, "express ", AsciiFold);
  }

  /** No "express " starts in the first three characters of "expexpress ress ". */
  lemma NoEarlyExpress(s: string)
    requires s == "exp" + "express " + "ress "
    ensures forall j {:trigger Match(s[j..], Express)} :: 0 <= j < 3 ==> Match(s[j..], Express).None?
  {
    forall j | 0 <= j < 3
      ensures Match(s[j..], Express).None?
    {
      SingleMismatch(s[j..], Express, if j == 0 then 3 else 0);
    }
  }

  lemma NoXIn(v: string)
    requires v == "ress "
    ensures forall i :: 0 <= i < |v| ==> v[i] != 'x' && v[i] != 'X'
  {
  }

  /** Deleting an "express " whose neighbours spell "express " again leaves
      a new one behind, which a second pass would delete: the step is not
      idempotent. */
  lemma ExpressRecreated()
    ensures ReplaceScan("expexpress ress ", Express, "") == "express "
  {
    var u, e, v := "exp", "express ", "ress ";
    ExpressPieces(u, e, v);
    NoEarlyExpress(u + e + v);
    ExpressAt(e + v);
    NoXIn(v);
    NoExpress(v, Express);
    ReplaceScanDeleteFirst(u, e, v, Express);
  }

  lemma ExpressPieces(u: string, e: string, v: string)
    requires u == "exp" && e == "express " && v == "ress "
    ensures u + e + v == "expexpress ress " && u + v == e && (e + v)[..8] == e
  {
  }

  /** ... and the second pass deletes it. */
  lemma ExpressDeleted()
    ensures ReplaceScan("express ", Express, "") == ""
  {
    WholeMatch("express ", Express);
    ReplaceScanWhole("express ", Express, "");
  }

  // ------------------------------------------------------ stop name properties

  /** In cleanStopName, " - " becomes one space, and the result can hold a
      new " - ": "x - - y" becomes "x - y". */
  lemma StopNameDashLeavesDash(a: string, b: string)
    requires forall i :: 0 <= i < |a| ==> a[i] != '-'
    requires forall i :: 0 <= i < |b| ==> b[i] != '-'
    ensures ReplaceAll(a + " - - " + b, Dash, " ") == a + " - " + b
    ensures Occurs(ReplaceAll(a + " - - " + b, Dash, " "), Dash)
  {
    var t := "- " + b;
    DashPieces(a, b);
    NoDashAfter(b);
    DashBetween(a, t, " ");
    DashAfter(a, b);
  }

  lemma DashPieces(a: string, b: string)
    ensures a + " - - " + b == a + " - " + ("- " + b)
    ensures a + " - " + b == a + " " + ("- " + b)
  {
  }

  /** "- b" holds no " - " when b holds no '-'. */
  lemma NoDashAfter(b: string)
    requires forall i :: 0 <= i < |b| ==> b[i] != '-'
    ensures !Occurs("- " + b, Dash)
  {
    var t := "- " + b;
    AbsentWithout(b, Dash, '-');
    DashMatch(t);
    DashMatch(t[1..]);
    assert t[1..][1..] == b;
  }

  /** " - " sits right after `a`. */
  lemma DashAfter(a: string, b: string)
    ensures Occurs(a + " - " + b, Dash)
  {
    var r := a + " - " + b;
    DashMatch(r[|a|..]);
    assert r[|a|..][..3] == " - ";
    OccursAt(r, Dash, |a|);
  }
}
