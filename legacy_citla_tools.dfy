/** The older snapshot of the CITLA agency tools: one stop-id prefix and one
    last letter, a stop code parsed without a digit check, and its own
    rewrite steps for route long names, trip headsigns and stop names. */
module LegacyCitlaTools {
  import opened Strings
  import opened Rewrite
  import opened StopScheme
  import CitlaTools

  // ----------------------------------------------------------------- stop ids

  /** getStopCode: the code "0" means that the stop has no code (null);
      every other code is the framework's, the feed's own stop code. */
  function StopCode(stop: CitlaTools.GStop): (code: Option<string>)
    ensures code.None? <==> stop.stopCode == "0"
    ensures code.Some? ==> code.value == stop.stopCode
  {
    if stop.stopCode == "0" then None else Some(stop.stopCode)
  }

  /** The only prefix and the only last letter this version knows. */
  const Legacy := Scheme([("BLA", 100_000)], [("C", 3_000)])

  /** getStopId: a present, non-empty code goes to `Integer.valueOf` with no
      digit check, so a code it rejects ends the run; otherwise the stop id
      token is decomposed with the one-entry tables. */
  function StopId(stop: CitlaTools.GStop): (r: Resolved)
    ensures stop.stopCode == "" || stop.stopCode == "0" ==> r == TokenStopId(Legacy, stop.stopId)
    ensures stop.stopCode != "" && stop.stopCode != "0" ==>
      r == (match JavaParseInt(stop.stopCode) case Some(v) => Ok(v) case None => Fatal(BadNumber))
  {
    var code := StopCode(stop);
    if code.Some? && |code.value| > 0 then
      match JavaParseInt(code.value)
      case Some(v) => Ok(v)
      case None => Fatal(BadNumber)
    else TokenStopId(Legacy, stop.stopId)
  }

  /** A code with a character that is neither an ASCII digit nor a leading
      sign is fatal here, where the current version falls back to the token. */
  lemma NonNumericCodeFatal(stop: CitlaTools.GStop, k: nat)
    requires k < |stop.stopCode| && !IsDigit(stop.stopCode[k])
    requires k > 0 || (stop.stopCode[0] != '-' && stop.stopCode[0] != '+')
    ensures StopId(stop) == Fatal(BadNumber)
    ensures CitlaTools.StopId(stop) == TokenStopId(CitlaTools.Current, stop.stopId)
  {
    if k > 0 {
      assert stop.stopCode[1..][k - 1] == stop.stopCode[k];
    }
  }

  /** A signed code such as "-5" is accepted as the id here, where the
      current version rejects it for the token path. */
  lemma SignedCode(stopId: string)
    ensures StopId(CitlaTools.GStop(stopId, "-5")) == Ok(-5)
    ensures CitlaTools.StopId(CitlaTools.GStop(stopId, "-5")) == TokenStopId(CitlaTools.Current, stopId)
  {
    var code := "-5";
    assert code[1..] == "5" && DecimalValue("5") == 5;
    assert !AllDigits(code) by { assert !IsDigit(code[0]); }
  }

  /** The current scheme keeps the one prefix and the one last letter of
      this version, with the same values. */
  lemma CurrentExtendsLegacy()
    ensures Extends(CitlaTools.Current, Legacy)
  {
    CitlaTools.CurrentExclusive();
    assert Legacy.prefixes[0] == CitlaTools.Current.prefixes[0];
    assert Legacy.suffixes[0] == CitlaTools.Current.suffixes[2];
  }

  /** Every token this version resolves, the current version resolves to
      the same id. */
  lemma TokenAgrees(token: string)
    requires TokenStopId(Legacy, token).Ok?
    ensures TokenStopId(CitlaTools.Current, token) == TokenStopId(Legacy, token)
  {
    CurrentExtendsLegacy();
    ExtendsAgrees(CitlaTools.Current, Legacy, token);
  }

  /** For a stop without a code the two versions agree wherever this one
      gives an id. */
  lemma StopIdAgrees(stop: CitlaTools.GStop)
    requires stop.stopCode == "" || stop.stopCode == "0"
    requires StopId(stop).Ok?
    ensures CitlaTools.StopId(stop) == StopId(stop)
  {
    TokenAgrees(stop.stopId);
  }

  /** The tables of this version are exclusive: one entry each. */
  lemma LegacyExclusive()
    ensures Exclusive(Legacy.prefixes, false) && Exclusive(Legacy.suffixes, true)
  {
  }

  /** A "BLA…C" token with a digit run n resolves to 103 000 + n in both
      versions. */
  lemma BlaTokenResolves(token: string, n: nat)
    requires StartsWith(token, "BLA") && EndsWith(token, "C")
    requires FirstNumber(token) == Some(n) && n <= MaxInt
    ensures TokenStopId(Legacy, token) == Ok(Wrap32(103_000 + n))
    ensures TokenStopId(CitlaTools.Current, token) == Ok(Wrap32(103_000 + n))
  {
    LegacyExclusive();
    ExclusiveResolves(Legacy, token, 0, 0, n);
    TokenAgrees(token);
  }

  /** Only tokens that start with "BLA", end with "C" and hold a digit run
      that fits an `int` resolve; the digit run is checked first, then the
      prefix, then the last letter. */
  lemma TokenFailures(token: string)
    ensures TokenStopId(Legacy, token).Ok? <==>
      && StartsWith(token, "BLA") && EndsWith(token, "C")
      && FirstNumber(token).Some? && FirstNumber(token).value <= MaxInt
    ensures FirstNumber(token).None? ==> TokenStopId(Legacy, token) == Fatal(NoDigitRun)
    ensures FirstNumber(token).Some? && FirstNumber(token).value <= MaxInt && !StartsWith(token, "BLA") ==>
      TokenStopId(Legacy, token) == Fatal(UnknownPrefix)
    ensures FirstNumber(token).Some? && FirstNumber(token).value <= MaxInt
            && StartsWith(token, "BLA") && !EndsWith(token, "C") ==>
      TokenStopId(Legacy, token) == Fatal(UnknownSuffix)
  {
    if FirstDigitRun(token).Some? {
      var run := FirstDigitRun(token).value;
      assert JavaParseInt(run).Some? <==> DecimalValue(run) <= MaxInt;
    }
    assert Lookup(Legacy.prefixes[1..], token, false) == None by { assert Legacy.prefixes[1..] == []; }
    assert Lookup(Legacy.suffixes[1..], token, true) == None by { assert Legacy.suffixes[1..] == []; }
  }

  // ----------------------------------------------------------- label rewrites

  /** The framework's label helpers this version calls, whose bodies are
      not part of this model. */
  datatype LegacyLibrary = LegacyLibrary(
    saint: string -> string,                 // CleanUtils.SAINT, replaced by SAINT_REPLACEMENT
    point: string -> string,                 // CleanUtils.POINT, replaced by POINT_REPLACEMENT
    et: string -> string,                    // CleanUtils.ET, replaced by ET_REPLACEMENT
    cleanLabel: string -> string,
    cleanLabelFR: string -> string,
    cleanStreetTypesFRCA: string -> string,
    cleanStopNameFR: string -> string)       // the framework's cleanStopNameFR

  /** `(\(métro )` with CASE_INSENSITIVE only: the `é` is compared exactly. */
  const Metro := Pattern(["(métro "], AsciiFold, false)
  /** `(secteur[s]? )`: the greedy `[s]?` tries "secteurs " first. */
  const Secteur := Pattern(["secteurs ", "secteur "], AsciiFold, false)
  /** `(direction )` with CASE_INSENSITIVE. */
  const Direction := Pattern(["direction "], AsciiFold, false)

  /** The agency's own steps of getRouteLongName, in order. */
  const RouteLongNameRules := [
    Rule(Metro, "("),
    Rule(Secteur, ""),
    Rule(CitlaTools.DashDes, "- "),
    Rule(CitlaTools.SudVersNord, "Boisbriand Sud => Nord"),
    Rule(CitlaTools.NordVersSud, CitlaTools.NordToSud)]

  /** getRouteLongName: the library's saint, point and et steps, the
      agency's rules in order, then cleanLabel. A name that holds none of the
      rule patterns after the first three steps reaches cleanLabel as it is. */
  function RouteLongName(lib: LegacyLibrary, route: CitlaTools.GRoute): (r: string)
    ensures var t := lib.et(lib.point(lib.saint(route.routeLongName)));
      (forall k :: 0 <= k < |RouteLongNameRules| ==> !Occurs(t, RouteLongNameRules[k].pattern)) ==>
        r == lib.cleanLabel(t)
  {
    lib.cleanLabel(ApplyRules(lib.et(lib.point(lib.saint(route.routeLongName))), RouteLongNameRules))
  }

  /** Proof helper: the secteur removal comes between the métro and the dash-de steps, and
      the two Boisbriand rewrites close the list exactly as in the current
      version. */
  lemma RouteLongNameOrder(s: string)
    ensures ApplyRules(s, RouteLongNameRules)
         == ApplyRules(ReplaceScan(ReplaceScan(ReplaceScan(s, Metro, "("), Secteur, ""), CitlaTools.DashDes, "- "),
                       CitlaTools.RouteLongNameRules[2..])
  {
    var head := [Rule(Metro, "("), Rule(Secteur, ""), Rule(CitlaTools.DashDes, "- ")];
    assert RouteLongNameRules == head + CitlaTools.RouteLongNameRules[2..];
    ApplyRulesAppend(s, head, CitlaTools.RouteLongNameRules[2..]);
    var s1 := ReplaceScan(s, Metro, "(");
    var s2 := ReplaceScan(s1, Secteur, "");
    var s3 := ReplaceScan(s2, CitlaTools.DashDes, "- ");
    assert ApplyRules(s, head) == ApplyRules(s1, head[1..]);
    assert head[1..][0] == Rule(Secteur, "");
    assert ApplyRules(s1, head[1..]) == ApplyRules(s2, head[2..]);
    assert head[2..][0] == Rule(CitlaTools.DashDes, "- ");
    assert ApplyRules(s2, head[2..]) == ApplyRules(s3, head[3..]);
    assert head[3..] == [];
  }

  lemma NoMetroWithout(x: string, p: Pattern)
    requires p == Metro && '(' !in x
    ensures !Occurs(x, p)
  {
    NoSymbol(x, '(', AsciiFold);
    assert p.alts == [p.alts[0]] && p.alts[0][0] == '(';
    AbsentWithout(x, p, '(');
  }

  /** The secteur step on "u secteur v": "secteurs " fails on the blank
      at index 7, so the shorter "secteur " is deleted. */
  lemma SecteurStep(u: string, v: string, p: Pattern, w: string)
    requires p == Secteur && w == "secteur "
    requires 's' !in u && 'S' !in u
    requires forall i :: 0 <= i < |v| ==> v[i] !in "tT"
    ensures ReplaceScan(u + w + v, p, "") == u + v
  {
    NoLetter(u, 's', AsciiFold);
    assert p.alts == [p.alts[0], p.alts[1]] && p.alts[0][0] == 's' && p.alts[1][0] == 's';
    NoMatchBefore(u, w, v, p, 's');
    assert p.alts[1] == w && (w + v)[..8] == w;
    assert (w + v)[7] == ' ' && p.alts[0][7] == 's';
    SecondAltMatch(w + v, p, 7);
    NoSecteur(v, p);
    ReplaceScanDeleteFirst(u, w, v, p);
  }

  lemma SecteurPieces(u: string, v: string, w: string, a: string, b: string, c: string)
    requires w == "- secteur des " && a == "- " && b == "secteur " && c == "des "
    ensures u + w + v == (u + a) + b + (c + v)
    ensures (u + a) + (c + v) == u + "- des " + v
    ensures '(' !in w && 's' !in a && 'S' !in a && forall i :: 0 <= i < |c| ==> c[i] !in "tT"
  {
  }

  /** The first three steps on "u- secteur des v": no métro, the secteur
      goes, then "- des " becomes "- ". */
  lemma SecteurScans(u: string, v: string, w: string)
    requires w == "- secteur des "
    requires '(' !in u && '-' !in u && 's' !in u && 'S' !in u
    requires '(' !in v && '-' !in v && 't' !in v && 'T' !in v
    ensures ReplaceScan(ReplaceScan(ReplaceScan(u + w + v, Metro, "("), Secteur, ""), CitlaTools.DashDes, "- ")
         == u + "- " + v
  {
    var a, b, c := "- ", "secteur ", "des ";
    SecteurPieces(u, v, w, a, b, c);
    NoMetroWithout(u + w + v, Metro);
    assert forall i :: 0 <= i < |c + v| ==> (c + v)[i] !in "tT" by {
      forall i | 0 <= i < |c + v|
        ensures (c + v)[i] !in "tT"
      {
        if i >= |c| {
          assert (c + v)[i] == v[i - |c|];
        }
      }
    }
    SecteurStep(u + a, c + v, Secteur, b);
    CitlaTools.DashDesStep(u, v, CitlaTools.DashDes, "- des ");
  }

  /** The two Boisbriand steps leave a name without a 'v' or 'V' alone. */
  lemma BoisbriandTailUnchanged(r: string, rules: seq<Rule>)
    requires rules == CitlaTools.RouteLongNameRules[2..]
    requires 'v' !in r && 'V' !in r
    ensures ApplyRules(r, rules) == r
  {
    assert rules[0].pattern == CitlaTools.SudVersNord && rules[1].pattern == CitlaTools.NordVersSud;
    CitlaTools.NoBoisbriandWithout(r, CitlaTools.SudVersNord);
    CitlaTools.NoBoisbriandWithout(r, CitlaTools.NordVersSud);
  }

  /** "… - secteur des X" becomes "… - X": the secteur step runs before the
      dash-de step, so the dash-de step then sees "- des X". */
  lemma SecteurThenDashDes(u: string, v: string)
    requires '(' !in u && '-' !in u && 's' !in u && 'S' !in u && 'v' !in u && 'V' !in u
    requires '(' !in v && '-' !in v && 't' !in v && 'T' !in v && 'v' !in v && 'V' !in v
    ensures ApplyRules(u + "- secteur des " + v, RouteLongNameRules) == u + "- " + v
  {
    RouteLongNameOrder(u + "- secteur des " + v);
    SecteurAllSteps(u, v, "- secteur des ");
  }

  lemma SecteurAllSteps(u: string, v: string, w: string)
    requires w == "- secteur des "
    requires '(' !in u && '-' !in u && 's' !in u && 'S' !in u && 'v' !in u && 'V' !in u
    requires '(' !in v && '-' !in v && 't' !in v && 'T' !in v && 'v' !in v && 'V' !in v
    ensures ApplyRules(ReplaceScan(ReplaceScan(ReplaceScan(u + w + v, Metro, "("), Secteur, ""), CitlaTools.DashDes, "- "),
                       CitlaTools.RouteLongNameRules[2..])
         == u + "- " + v
  {
    SecteurScans(u, v, w);
    BoisbriandTailUnchanged(u + "- " + v, CitlaTools.RouteLongNameRules[2..]);
  }

  /** The métro step on "u(métro v", here with ASCII case folding only. */
  lemma MetroStep(u: string, v: string, p: Pattern, w: string)
    requires p == Metro && w == "(métro "
    requires '(' !in u && '(' !in v
    ensures ReplaceScan(u + w + v, p, "(") == u + "(" + v
  {
    NoSymbol(u, '(', AsciiFold);
    assert p.alts == [w] && w[0] == '(';
    NoMatchBefore(u, w, v, p, '(');
    assert (w + v)[..|w|] == w;
    FirstAltMatch(w + v, p);
    NoMetroWithout(v, p);
    ReplaceScanSplit(u, w, v, p, "(");
  }

  /** The first three steps on "u(métro v": the métro step shortens it, and
      the secteur and dash-de steps find nothing after it. */
  lemma MetroScans(u: string, v: string, w: string)
    requires w == "(métro "
    requires '(' !in u && '-' !in u && 't' !in u && 'T' !in u
    requires '(' !in v && '-' !in v && 't' !in v && 'T' !in v
    ensures ReplaceScan(ReplaceScan(ReplaceScan(u + w + v, Metro, "("), Secteur, ""), CitlaTools.DashDes, "- ")
         == u + "(" + v
  {
    var r := u + "(" + v;
    MetroStep(u, v, Metro, w);
    assert '-' !in r && 't' !in r && 'T' !in r;
    NoSecteur(r, Secteur);
    CitlaTools.NoDashDesWithout(r, CitlaTools.DashDes);
  }

  lemma MetroAllSteps(u: string, v: string, w: string)
    requires w == "(métro "
    requires '(' !in u && '-' !in u && 't' !in u && 'T' !in u && 'v' !in u && 'V' !in u
    requires '(' !in v && '-' !in v && 't' !in v && 'T' !in v && 'v' !in v && 'V' !in v
    ensures ApplyRules(ReplaceScan(ReplaceScan(ReplaceScan(u + w + v, Metro, "("), Secteur, ""), CitlaTools.DashDes, "- "),
                       CitlaTools.RouteLongNameRules[2..])
         == u + "(" + v
  {
    MetroScans(u, v, w);
    BoisbriandTailUnchanged(u + "(" + v, CitlaTools.RouteLongNameRules[2..]);
  }

  /** "(métro X" becomes "(X" for any text around it that holds no other
      rewrite (no further '(', no '-', 'T' or 'V'). */
  lemma MetroShortened(u: string, v: string)
    requires '(' !in u && '-' !in u && 't' !in u && 'T' !in u && 'v' !in u && 'V' !in u
    requires '(' !in v && '-' !in v && 't' !in v && 'T' !in v && 'v' !in v && 'V' !in v
    ensures ApplyRules(u + "(métro " + v, RouteLongNameRules) == u + "(" + v
  {
    RouteLongNameOrder(u + "(métro " + v);
    MetroAllSteps(u, v, "(métro ");
  }

  /** A name without '(', '-', 't' or 'T' passes the métro, secteur and dash-de
      steps unchanged. */
  lemma FrontUnchanged(s: string)
    requires '(' !in s && '-' !in s && 't' !in s && 'T' !in s
    ensures ReplaceScan(ReplaceScan(ReplaceScan(s, Metro, "("), Secteur, ""), CitlaTools.DashDes, "- ") == s
  {
    NoMetroWithout(s, Metro);
    NoSecteur(s, Secteur);
    CitlaTools.NoDashDesWithout(s, CitlaTools.DashDes);
  }

  /** Both Boisbriand phrases hold no '(', '-' or 'T'. */
  lemma AroundPhrases(u: string, v: string, w: string)
    requires w == CitlaTools.SudVersNordPhrase || w == CitlaTools.NordVersSudPhrase
    requires '(' !in u && '-' !in u && 't' !in u && 'T' !in u
    requires '(' !in v && '-' !in v && 't' !in v && 'T' !in v
    ensures '(' !in u + w + v && '-' !in u + w + v && 't' !in u + w + v && 'T' !in u + w + v
  {
    if w == CitlaTools.SudVersNordPhrase {
      CitlaTools.PhraseChars(w, CitlaTools.SudToNord);
    } else {
      CitlaTools.NordPhraseChars(w, CitlaTools.NordToSud);
    }
  }

  /** "Boisbriand Sud Vers Boisbriand Nord" becomes "Boisbriand Sud => Nord"
      wherever it stands in a name, as in the current version. */
  lemma BoisbriandInside(u: string, v: string)
    requires '(' !in u && '-' !in u && 't' !in u && 'T' !in u && 'b' !in u && 'B' !in u && 'v' !in u && 'V' !in u
    requires '(' !in v && '-' !in v && 't' !in v && 'T' !in v && 'v' !in v && 'V' !in v
    ensures ApplyRules(u + CitlaTools.SudVersNordPhrase + v, RouteLongNameRules) == u + CitlaTools.SudToNord + v
  {
    var w := CitlaTools.SudVersNordPhrase;
    RouteLongNameOrder(u + w + v);
    AroundPhrases(u, v, w);
    FrontUnchanged(u + w + v);
    CitlaTools.SudVersNordTail(u, v, w);
  }

  /** "Boisbriand Nord Vers Boisbriand Sud" becomes "Boisbriand Nord => Sud"
      wherever it stands in a name, as in the current version. */
  lemma NordVersSudInside(u: string, v: string)
    requires '(' !in u && '-' !in u && 't' !in u && 'T' !in u && 'b' !in u && 'B' !in u && 'v' !in u && 'V' !in u
    requires '(' !in v && '-' !in v && 't' !in v && 'T' !in v && 'v' !in v && 'V' !in v
    ensures ApplyRules(u + CitlaTools.NordVersSudPhrase + v, RouteLongNameRules) == u + CitlaTools.NordToSud + v
  {
    var w := CitlaTools.NordVersSudPhrase;
    RouteLongNameOrder(u + w + v);
    AroundPhrases(u, v, w);
    FrontUnchanged(u + w + v);
    CitlaTools.BoisbriandTailSteps(u + w + v);
    CitlaTools.SudVersNordAbsent(u, v, w, CitlaTools.SudVersNord);
    CitlaTools.NordVersSudStep(u, v, CitlaTools.NordVersSud, w);
  }

  /** The agency's own steps of cleanTripHeadsign, before the library's. */
  const HeadsignRules := [Rule(Direction, ""), Rule(Secteur, "")]

  /** cleanTripHeadsign: "direction " and "secteur[s] " are deleted, then
      point and cleanLabelFR run. A headsign without either word only goes
      through the library steps. */
  function CleanTripHeadsign(lib: LegacyLibrary, tripHeadsign: string): (r: string)
    ensures !Occurs(tripHeadsign, Direction) && !Occurs(tripHeadsign, Secteur) ==>
      r == lib.cleanLabelFR(lib.point(tripHeadsign))
  {
    assert HeadsignRules[0].pattern == Direction && HeadsignRules[1].pattern == Secteur;
    lib.cleanLabelFR(lib.point(ApplyRules(tripHeadsign, HeadsignRules)))
  }

  /** Proof helper: the headsign steps, written out one by one. */
  lemma HeadsignSteps(h: string)
    ensures ApplyRules(h, HeadsignRules) == ReplaceScan(ReplaceScan(h, Direction, ""), Secteur, "")
  {
    var rules := HeadsignRules;
    var h1 := ReplaceScan(h, Direction, "");
    var h2 := ReplaceScan(h1, Secteur, "");
    assert rules[0] == Rule(Direction, "") && !Direction.anchored;
    assert ApplyRules(h, rules) == ApplyRules(h1, rules[1..]);
    assert rules[1..][0] == Rule(Secteur, "") && !Secteur.anchored;
    assert ApplyRules(h1, rules[1..]) == ApplyRules(h2, rules[2..]);
    assert rules[2..] == [];
  }

  lemma DirectionAt(x: string)
    ensures Match("direction " + x, Direction) == Some(10)
  {
    var t := "direction " + x;
    assert t[..10] == "direction ";
    SingleMatch(t, Direction);
    FoldPrefixSelf(t, "direction ", AsciiFold);
  }

  /** Neither "direction " nor "secteur " occurs where there is no 't'. */
  lemma NoDirection(x: string, p: Pattern)
    requires p == Direction
    requires forall i :: 0 <= i < |x| ==> x[i] !in "tT"
    ensures !Occurs(x, p)
  {
    NoLetter(x, 't', AsciiFold);
    assert |p.alts| == 1 && p.alts[0][5] == 't';
    AbsentSingle(x, p, 5);
  }

  lemma NoSecteur(x: string, p: Pattern)
    requires p == Secteur
    requires forall i :: 0 <= i < |x| ==> x[i] !in "tT"
    ensures !Occurs(x, p)
  {
    NoLetter(x, 't', AsciiFold);
    assert p.alts == [p.alts[0], p.alts[1]] && p.alts[0][3] == 't' && p.alts[1][3] == 't';
    AbsentWithout(x, p, 't');
  }

  /** A headsign "direction X" reaches the library steps as "X", for any X
      without a 't' or 'T' (so without "direction " or "secteur " in any
      case). */
  lemma HeadsignDropsDirection(lib: LegacyLibrary, x: string)
    requires forall i :: 0 <= i < |x| ==> x[i] !in "tT"
    ensures CleanTripHeadsign(lib, "direction " + x) == lib.cleanLabelFR(lib.point(x))
  {
    var e := "direction ";
    HeadsignSteps(e + x);
    NoDirection(x, Direction);
    NoSecteur(x, Secteur);
    DirectionAt(x);
    assert [] + e + x == e + x;
    ReplaceScanDeleteFirst([], e, x, Direction);
    assert [] + x == x;
  }

  /** cleanStopName: the two face removals, then the library steps; this
      version has no dash, devant or civique step. */
  function CleanStopName(lib: LegacyLibrary, stopName: string): (r: string)
    ensures
      && (forall k :: 0 <= k < |CitlaTools.StartWithFaces| ==> !Occurs(stopName, CitlaTools.StartWithFaces[k]))
      && (forall k :: 0 <= k < |CitlaTools.SpaceFaces| ==> !Occurs(stopName, CitlaTools.SpaceFaces[k]))
      ==> r == lib.cleanStopNameFR(lib.cleanStreetTypesFRCA(stopName))
  {
    lib.cleanStopNameFR(lib.cleanStreetTypesFRCA(CitlaTools.RemoveFaces(stopName)))
  }

  /** A stop name without an 'f' or 'F' reaches the library steps unchanged. */
  lemma StopNameWithoutFace(lib: LegacyLibrary, name: string)
    requires forall i :: 0 <= i < |name| ==> name[i] !in "fF"
    ensures CleanStopName(lib, name) == lib.cleanStopNameFR(lib.cleanStreetTypesFRCA(name))
  {
    CitlaTools.RemoveFacesWithoutF(name);
  }
}
