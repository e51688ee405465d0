/** The per-syllable feature extractor (`syllInfo`): select the final,
    penultimate or antepenultimate syllable of a word, tokenise it, drop a
    leading stress mark, find its vowel tokens, and report the onset and coda
    consonant counts and material and the nucleus. */
module Syllable {
  import opened Failures
  import opened Strings
  import opened Inventory
  import opened Tokenize

  /** The three syllable positions the extractor knows, counted from the end. */
  datatype Role = Antepenult | Penult | Final

  function RoleName(role: Role): string
  {
    match role
    case Antepenult => "antepenult"
    case Penult => "penult"
    case Final => "final"
  }

  /** The role a location name denotes; the extractor accepts only these three names. */
  function RoleFromName(location: string): (r: Option<Role>)
    ensures r.Some? <==> location in ["antepenult", "penult", "final"]
    ensures r.Some? ==> RoleName(r.value) == location
  {
    if location == "antepenult" then Some(Antepenult)
    else if location == "penult" then Some(Penult)
    else if location == "final" then Some(Final)
    else None
  }

  /** How far from the end of the word the role's syllable sits (1 for the last). */
  function FromEnd(role: Role): nat
  {
    match role
    case Antepenult => 3
    case Penult => 2
    case Final => 1
  }

  /** The five values the extractor returns: all "NA" for a syllable the word
      does not have, or the onset and coda counts, the onset and coda material
      (the literal "None" when there is none) and the nucleus. */
  datatype Info =
    | NA
    | Info(nOnsetCons: nat, nCodaCons: nat, onsetCons: string, codaCons: string, v: string)

  /** The positions of the vowel tokens of `s`, in increasing order. */
  function VowelPositions(s: seq<string>): (inds: seq<nat>)
    ensures |inds| <= |s|
    ensures forall k :: 0 <= k < |inds| ==> inds[k] < |s|
    ensures forall k, l :: 0 <= k < l < |inds| ==> inds[k] < inds[l]
  {
    if |s| == 0 then []
    else VowelPositions(s[..|s| - 1]) + (if IsVowel(s[|s| - 1]) then [|s| - 1] else [])
  }

  /** `VowelPositions(s)` lists exactly the vowel tokens of `s`, in order. */
  lemma {:induction false} VowelPositionsExact(s: seq<string>)
    ensures var inds := VowelPositions(s);
      && (forall k :: 0 <= k < |inds| ==> IsVowel(s[inds[k]]))
      && (forall i :: 0 <= i < |s| && IsVowel(s[i]) ==> i in inds)
    decreases |s|
  {
    if |s| > 0 {
      var init := s[..|s| - 1];
      VowelPositionsExact(init);
      forall i | 0 <= i < |init|
        ensures init[i] == s[i]
      {
      }
    }
  }

  /** The loop collecting the vowel indices of a token list. */
  method VowelIndices(syl: seq<string>) returns (vowelInds: seq<nat>)
    ensures vowelInds == VowelPositions(syl)
  {
    vowelInds := [];
    var i := 0;
    while i < |syl|
      invariant 0 <= i <= |syl|
      invariant vowelInds == VowelPositions(syl[..i])
    {
      assert syl[..i + 1][..i] == syl[..i];
      if IsVowel(syl[i]) {
        vowelInds := vowelInds + [i];
      }
      i := i + 1;
    }
    assert syl[..i] == syl;
  }

  /** The token list without a leading stress-mark token. */
  function StripStress(toks: seq<string>): seq<string>
    requires |toks| > 0
  {
    if toks[0] == "'" then toks[1..] else toks
  }

  /** The features of a stress-stripped token list `s` whose first vowel
      token is at `first`, whose last is at `last`, with nucleus `v`. */
  function Measured(s: seq<string>, first: nat, last: nat, v: string): Info
    requires first <= last < |s|
  {
    var nOnsetCons := first;
    var nCodaCons := |s| - last - 1;
    Info(nOnsetCons, nCodaCons,
         if nOnsetCons > 0 then Concat(s[..first]) else "None",
         if nCodaCons > 0 then Concat(s[last + 1..]) else "None",
         v)
  }

  /** Everything after tokenisation: strip the stress mark, check the vowel
      count, and measure onset, coda and nucleus. */
  function Analyse(toks: seq<string>): (r: Result<Info>)
    ensures r.Ok? ==> r.value.Info?
    ensures r.Err? ==> r.error == IndexOutOfRange || r.error.VowelCount?
  {
    if |toks| == 0 then Err(IndexOutOfRange)
    else
      var s := StripStress(toks);
      var vowelInds := VowelPositions(s);
      if !(0 < |vowelInds| <= 3) then Err(VowelCount(|vowelInds|))
      else
        var first, last := vowelInds[0], vowelInds[|vowelInds| - 1];
        Ok(Measured(s, first, last, Nucleus(s, vowelInds)))
  }

  /** The features of one syllable string. */
  function SyllableInfo(syl: string): (r: Result<Info>)
    ensures r.Ok? ==> r.value.Info?
    ensures r.Err? ==> r.error == IndexOutOfRange || r.error.VowelCount?
  {
    match Tokens(syl)
    case None => Err(IndexOutOfRange)
    case Some(toks) => Analyse(toks)
  }

  /** `syllInfo(syls, location)` */
  function InfoAt(syls: seq<string>, location: string): (r: Result<Info>)
    ensures r.Err? ==> r.error.LocationRejected? || r.error == IndexOutOfRange || r.error.VowelCount?
    ensures r.Err? && r.error.LocationRejected? <==> location !in ["antepenult", "penult", "final"]
  {
    match RoleFromName(location)
    case None => Err(LocationRejected(location))
    case Some(role) =>
      if |syls| < FromEnd(role) then
        (if role == Final then Err(IndexOutOfRange) else Ok(NA))
      else SyllableInfo(syls[|syls| - FromEnd(role)])
  }

  /** The extractor as the script runs it, step by step. */
  method SyllInfo(syls: seq<string>, location: string) returns (r: Result<Info>)
    ensures r == InfoAt(syls, location)
  {
    if location !in ["antepenult", "penult", "final"] {
      return Err(LocationRejected(location));
    }
    var nSyls := |syls|;
    if (location == "antepenult" && nSyls < 3) || (location == "penult" && nSyls < 2) {
      return Ok(NA);
    }
    var chars: string;
    if location == "final" {
      if nSyls < 1 {
        return Err(IndexOutOfRange);
      }
      chars := syls[nSyls - 1];
    } else if location == "penult" {
      chars := syls[nSyls - 2];
    } else {
      chars := syls[nSyls - 3];
    }
    r := DescribeSyllable(chars);
  }

  /** The second half of `syllInfo`: tokenise the chosen syllable and measure it. */
  method DescribeSyllable(chars: string) returns (r: Result<Info>)
    ensures r == SyllableInfo(chars)
  {
    var merged := MergeTildes(chars);
    if merged.None? {
      return Err(IndexOutOfRange);
    }
    r := Measure(merged.value);
  }

  /** The measuring part of `syllInfo`, on the token list. */
  method Measure(toks: seq<string>) returns (r: Result<Info>)
    ensures r == Analyse(toks)
  {
    var syl := toks;
    if |syl| == 0 {
      return Err(IndexOutOfRange);
    }
    if syl[0] == "'" {
      syl := syl[1..];
    }
    assert syl == StripStress(toks);
    var vowelInds := VowelIndices(syl);
    if !(|vowelInds| > 0 && |vowelInds| <= 3) {
      return Err(VowelCount(|vowelInds|));
    }
    var info := MeasureVowels(syl, vowelInds);
    return Ok(info);
  }

  /** The nucleus: the first vowel token, followed by the second one if there is one. */
  function Nucleus(s: seq<string>, inds: seq<nat>): string
    requires 0 < |inds|
    requires forall k :: 0 <= k < |inds| ==> inds[k] < |s|
  {
    s[inds[0]] + (if |inds| > 1 then s[inds[1]] else "")
  }

  /** The last part of `syllInfo`: nucleus, onset and coda from the vowel positions. */
  method MeasureVowels(syl: seq<string>, vowelInds: seq<nat>) returns (info: Info)
    requires 0 < |vowelInds|
    requires forall k :: 0 <= k < |vowelInds| ==> vowelInds[k] < |syl|
    requires vowelInds[0] <= vowelInds[|vowelInds| - 1]
    ensures info == Measured(syl, vowelInds[0], vowelInds[|vowelInds| - 1], Nucleus(syl, vowelInds))
  {
    var v := syl[vowelInds[0]];
    if |vowelInds| > 1 {
      v := v + syl[vowelInds[1]];
    } else {
      assert v + "" == v;
    }
    var nOnsetCons := vowelInds[0];
    var nCodaCons := |syl| - vowelInds[|vowelInds| - 1] - 1;
    var onsetCons := if nOnsetCons > 0 then Concat(syl[..vowelInds[0]]) else "None";
    var codaCons := if nCodaCons > 0 then Concat(syl[vowelInds[|vowelInds| - 1] + 1..]) else "None";
    info := Info(nOnsetCons, nCodaCons, onsetCons, codaCons, v);
  }

  /** The outcomes of a location request: an unknown name is rejected, the
      all-"NA" answer is given exactly for a missing antepenult or penult, and a
      word without syllables has no final one to read. */
  lemma LocationOutcomes(syls: seq<string>, location: string)
    ensures location !in ["antepenult", "penult", "final"] ==>
      InfoAt(syls, location) == Err(LocationRejected(location))
    ensures InfoAt(syls, location).Ok? ==> location in ["antepenult", "penult", "final"]
    ensures InfoAt(syls, location) == Ok(NA) <==>
      (location == "antepenult" && |syls| < 3) || (location == "penult" && |syls| < 2)
    ensures location == "final" && |syls| == 0 ==> InfoAt(syls, location) == Err(IndexOutOfRange)
  {
  }

  /** A known location on a word long enough describes the syllable that far from the end. */
  lemma RoleSelection(syls: seq<string>, role: Role)
    requires |syls| >= FromEnd(role)
    ensures InfoAt(syls, RoleName(role)) == SyllableInfo(syls[|syls| - FromEnd(role)])
    ensures role == Final ==> InfoAt(syls, "final") == SyllableInfo(syls[|syls| - 1])
  {
    assert RoleFromName(RoleName(role)) == Some(role);
  }

  /** A strictly increasing sequence holds nothing below its first entry,
      nothing above its last, and nothing between its first two. */
  lemma SortedGaps(inds: seq<nat>)
    requires 0 < |inds|
    requires forall k, l :: 0 <= k < l < |inds| ==> inds[k] < inds[l]
    ensures forall j :: 0 <= j < inds[0] ==> j !in inds
    ensures forall j :: inds[|inds| - 1] < j ==> j !in inds
    ensures |inds| > 1 ==> forall j :: inds[0] < j < inds[1] ==> j !in inds
    ensures forall k :: 0 <= k < |inds| ==> inds[0] <= inds[k] <= inds[|inds| - 1]
  {
    forall k | 0 <= k < |inds|
      ensures inds[0] <= inds[k] <= inds[|inds| - 1]
      ensures k > 0 ==> inds[0] < inds[k]
      ensures k > 1 ==> inds[1] < inds[k]
    {
      if k > 0 {
        assert inds[0] < inds[k];
      }
      if k > 1 {
        assert inds[1] < inds[k];
      }
      if k < |inds| - 1 {
        assert inds[k] < inds[|inds| - 1];
      }
    }
  }

  /** Onset and coda are the runs of non-vowel tokens before the first and
      after the last vowel token of the stress-stripped syllable. */
  lemma OnsetCoda(toks: seq<string>, info: Info)
    requires Analyse(toks) == Ok(info)
    ensures |toks| > 0 && info.Info?
    ensures var s := StripStress(toks);
      && info.nOnsetCons + info.nCodaCons < |s|
      && IsVowel(s[info.nOnsetCons])
      && IsVowel(s[|s| - 1 - info.nCodaCons])
      && (forall i :: 0 <= i < info.nOnsetCons ==> !IsVowel(s[i]))
      && (forall i :: |s| - info.nCodaCons <= i < |s| ==> !IsVowel(s[i]))
  {
    AnalyseCounts(toks, info);
    var s := StripStress(toks);
    VowelRuns(s, VowelPositions(s));
  }

  /** The counts of an accepted token list are read off its first and last vowel positions. */
  lemma AnalyseCounts(toks: seq<string>, info: Info)
    requires Analyse(toks) == Ok(info)
    ensures |toks| > 0 && info.Info?
    ensures var s := StripStress(toks); var inds := VowelPositions(s);
      && 0 < |inds| <= 3
      && inds[0] <= inds[|inds| - 1] < |s|
      && info.nOnsetCons == inds[0]
      && info.nCodaCons == |s| - 1 - inds[|inds| - 1]
  {
  }

  /** The tokens before the first and after the last vowel position are not vowels. */
  lemma VowelRuns(s: seq<string>, inds: seq<nat>)
    requires inds == VowelPositions(s) && 0 < |inds|
    ensures inds[0] <= inds[|inds| - 1] < |s|
    ensures IsVowel(s[inds[0]]) && IsVowel(s[inds[|inds| - 1]])
    ensures forall i :: 0 <= i < inds[0] ==> !IsVowel(s[i])
    ensures forall i :: inds[|inds| - 1] < i < |s| ==> !IsVowel(s[i])
  {
    VowelPositionsExact(s);
    SortedGaps(inds);
    forall i | 0 <= i < inds[0]
      ensures !IsVowel(s[i])
    {
      assert i !in inds;
    }
    forall i | inds[|inds| - 1] < i < |s|
      ensures !IsVowel(s[i])
    {
      assert i !in inds;
    }
  }


  /** The vowel-count check: the syllable is refused exactly when it has no
      vowel token or more than three, and the failure reports that count. */
  lemma VowelCountGate(toks: seq<string>)
    requires |toks| > 0
    ensures var s := StripStress(toks); var n := |VowelPositions(s)|;
      && (Analyse(toks).Err? <==> n == 0 || n > 3)
      && (Analyse(toks).Err? ==> Analyse(toks).error == VowelCount(n))
      && (n == 0 <==> forall i :: 0 <= i < |s| ==> !IsVowel(s[i]))
  {
    var s := StripStress(toks);
    var inds := VowelPositions(s);
    VowelPositionsExact(s);
    if |inds| > 0 {
      assert IsVowel(s[inds[0]]);
    }
  }

  /** The vowel positions and nucleus of an accepted token list. */
  lemma AnalyseNucleus(toks: seq<string>, info: Info)
    requires Analyse(toks) == Ok(info)
    ensures |toks| > 0 && info.Info?
    ensures var s := StripStress(toks); var inds := VowelPositions(s);
      && 0 < |inds| <= 3
      && inds[0] <= inds[|inds| - 1] < |s|
      && info.nOnsetCons == inds[0]
      && info.v == Nucleus(s, inds)
  {
  }

  /** With a single vowel token the nucleus is that token. */
  lemma NucleusAlone(toks: seq<string>, info: Info)
    requires Analyse(toks) == Ok(info)
    ensures |toks| > 0 && info.Info?
    ensures var s := StripStress(toks); var on := info.nOnsetCons;
      && on < |s|
      && ((forall i :: on < i < |s| ==> !IsVowel(s[i])) ==> info.v == s[on])
  {
    AnalyseNucleus(toks, info);
    var s := StripStress(toks);
    var inds := VowelPositions(s);
    VowelPositionsExact(s);
    if |inds| == 1 {
      assert Nucleus(s, inds) == s[inds[0]] + "";
    } else {
      assert inds[0] < inds[1] && IsVowel(s[inds[1]]);
    }
  }

  /** With a later vowel token the nucleus is the first vowel token followed
      by the next one; a third vowel token is never part of it. */
  lemma NucleusPair(toks: seq<string>, info: Info, j: nat)
    requires Analyse(toks) == Ok(info)
    requires var s := StripStress(toks); var on := info.nOnsetCons;
      on < j < |s| && IsVowel(s[j]) && forall i :: on < i < j ==> !IsVowel(s[i])
    ensures |toks| > 0 && info.Info?
    ensures var s := StripStress(toks); info.v == s[info.nOnsetCons] + s[j]
  {
    AnalyseNucleus(toks, info);
    var s := StripStress(toks);
    var inds := VowelPositions(s);
    VowelPositionsExact(s);
    SortedGaps(inds);
    assert j in inds;
    assert |inds| > 1;
    assert IsVowel(s[inds[1]]);
    assert j == inds[1];
  }

  /** A strictly increasing sequence of positions inside `[lo, hi)` has at most `hi - lo` entries. */
  lemma {:induction false} IncreasingLength(inds: seq<nat>, lo: nat, hi: nat)
    requires forall k :: 0 <= k < |inds| ==> lo <= inds[k] < hi
    requires forall k, l :: 0 <= k < l < |inds| ==> inds[k] < inds[l]
    ensures |inds| <= hi - lo || |inds| == 0
    decreases |inds|
  {
    if |inds| > 0 {
      var init := inds[..|inds| - 1];
      IncreasingLength(init, lo, inds[|inds| - 1]);
    }
  }

  /** Every vowel token lies between onset and coda, so onset, vowels and coda
      never overlap. */
  lemma VowelSpan(toks: seq<string>, info: Info)
    requires Analyse(toks) == Ok(info)
    ensures |toks| > 0 && info.Info?
    ensures var s := StripStress(toks); var inds := VowelPositions(s);
      && (forall k :: 0 <= k < |inds| ==> info.nOnsetCons <= inds[k] < |s| - info.nCodaCons)
      && info.nOnsetCons + |inds| + info.nCodaCons <= |s|
  {
    var s := StripStress(toks);
    var inds := VowelPositions(s);
    SortedGaps(inds);
    IncreasingLength(inds, inds[0], inds[|inds| - 1] + 1);
  }

  /** Text of an onset or coda as it stands in the syllable: empty when the
      count is zero, otherwise the reported material. */
  function Spelled(count: nat, material: string): string
  {
    if count == 0 then "" else material
  }

  /** The counts and material of an accepted token list, read off the stress-stripped list. */
  lemma AnalyseMaterial(toks: seq<string>, info: Info)
    requires Analyse(toks) == Ok(info)
    ensures |toks| > 0 && info.Info?
    ensures var s := StripStress(toks);
      && info.nOnsetCons + info.nCodaCons < |s|
      && info.onsetCons == (if info.nOnsetCons == 0 then "None" else Concat(s[..info.nOnsetCons]))
      && info.codaCons == (if info.nCodaCons == 0 then "None" else Concat(s[|s| - info.nCodaCons..]))
  {
    AnalyseCounts(toks, info);
    AnalyseOnset(toks, info);
    AnalyseCoda(toks, info);
  }

  /** The onset material of an accepted token list. */
  lemma AnalyseOnset(toks: seq<string>, info: Info)
    requires Analyse(toks) == Ok(info)
    ensures |toks| > 0 && info.Info?
    ensures var s := StripStress(toks);
      && info.nOnsetCons < |s|
      && info.onsetCons == (if info.nOnsetCons == 0 then "None" else Concat(s[..info.nOnsetCons]))
  {
  }

  /** The coda material of an accepted token list. */
  lemma AnalyseCoda(toks: seq<string>, info: Info)
    requires Analyse(toks) == Ok(info)
    ensures |toks| > 0 && info.Info?
    ensures var s := StripStress(toks);
      && info.nCodaCons < |s|
      && info.codaCons == (if info.nCodaCons == 0 then "None" else Concat(s[|s| - info.nCodaCons..]))
  {
    AnalyseCounts(toks, info);
  }

  /** The text an onset or coda stands for, given its reported material. */
  lemma MaterialSpelled(s: seq<string>, on: nat, co: nat, onsetCons: string, codaCons: string)
    requires on + co <= |s|
    requires onsetCons == (if on == 0 then "None" else Concat(s[..on]))
    requires codaCons == (if co == 0 then "None" else Concat(s[|s| - co..]))
    ensures Spelled(on, onsetCons) == Concat(s[..on])
    ensures Spelled(co, codaCons) == Concat(s[|s| - co..])
  {
    assert s[..0] == [] && s[|s|..] == [];
  }

  /** The syllable is its stress mark (if it starts with one), its onset
      material, the tokens from the first to the last vowel, and its coda
      material, in that order. */
  lemma SyllableRoundTrip(syl: string, toks: seq<string>, info: Info)
    requires Tokens(syl) == Some(toks) && Analyse(toks) == Ok(info)
    ensures |syl| > 0 && |toks| > 0 && info.Info?
    ensures var s := StripStress(toks);
      && info.nOnsetCons + info.nCodaCons < |s|
      && syl == (if syl[0] == '\'' then "'" else "")
                + Spelled(info.nOnsetCons, info.onsetCons)
                + Concat(s[info.nOnsetCons..|s| - info.nCodaCons])
                + Spelled(info.nCodaCons, info.codaCons)
  {
    AnalyseSpelled(toks, info);
    TokensFacts(syl, toks);
    RoundTripParts(syl, toks, info);
  }

  /** What the round trip needs from measuring. */
  lemma AnalyseSpelled(toks: seq<string>, info: Info)
    requires Analyse(toks) == Ok(info)
    ensures |toks| > 0 && info.Info?
    ensures var s := StripStress(toks);
      && info.nOnsetCons + info.nCodaCons < |s|
      && Spelled(info.nOnsetCons, info.onsetCons) == Concat(s[..info.nOnsetCons])
      && Spelled(info.nCodaCons, info.codaCons) == Concat(s[|s| - info.nCodaCons..])
  {
    AnalyseMaterial(toks, info);
    MaterialSpelled(StripStress(toks), info.nOnsetCons, info.nCodaCons, info.onsetCons, info.codaCons);
  }

  /** What the round trip needs from tokenising. */
  lemma TokensFacts(syl: string, toks: seq<string>)
    requires Tokens(syl) == Some(toks) && |toks| > 0
    ensures |syl| > 0 && Concat(toks) == syl
    ensures toks[0] == "'" <==> syl[0] == '\''
  {
    TokensText(syl, toks);
    TokensOfNothing(syl, toks);
    StressTokenFirst(syl, toks);
  }

  /** The round trip from what tokenising and measuring established. */
  lemma RoundTripParts(syl: string, toks: seq<string>, info: Info)
    requires |syl| > 0 && |toks| > 0 && info.Info?
    requires Concat(toks) == syl
    requires toks[0] == "'" <==> syl[0] == '\''
    requires var s := StripStress(toks);
      && info.nOnsetCons + info.nCodaCons < |s|
      && Spelled(info.nOnsetCons, info.onsetCons) == Concat(s[..info.nOnsetCons])
      && Spelled(info.nCodaCons, info.codaCons) == Concat(s[|s| - info.nCodaCons..])
    ensures var s := StripStress(toks);
      syl == (if syl[0] == '\'' then "'" else "")
             + Spelled(info.nOnsetCons, info.onsetCons)
             + Concat(s[info.nOnsetCons..|s| - info.nCodaCons])
             + Spelled(info.nCodaCons, info.codaCons)
  {
    ThreeParts(syl, toks, info.nOnsetCons, info.nCodaCons);
  }

  /** A syllable cut into its possible stress mark and three runs of the remaining tokens. */
  lemma ThreeParts(syl: string, toks: seq<string>, on: nat, co: nat)
    requires Concat(toks) == syl && |syl| > 0 && |toks| > 0
    requires toks[0] == "'" <==> syl[0] == '\''
    requires on + co <= |StripStress(toks)|
    ensures var s := StripStress(toks);
      syl == (if syl[0] == '\'' then "'" else "")
             + Concat(s[..on]) + Concat(s[on..|s| - co]) + Concat(s[|s| - co..])
  {
    var s := StripStress(toks);
    var mark := if syl[0] == '\'' then "'" else "";
    StressSplit(toks);
    assert mark == (if toks[0] == "'" then "'" else "");
    ConcatThree(s, on, co);
    Regroup(syl, mark, Concat(s), Concat(s[..on]), Concat(s[on..|s| - co]), Concat(s[|s| - co..]));
  }

  /** The text of a token list is its stress-mark token, if any, followed by the rest. */
  lemma StressSplit(toks: seq<string>)
    requires |toks| > 0
    ensures Concat(toks) == (if toks[0] == "'" then "'" else "") + Concat(StripStress(toks))
  {
    var s := StripStress(toks);
    var stress: seq<string> := if toks[0] == "'" then ["'"] else [];
    assert toks == stress + s;
    ConcatAppend(stress, s);
    ConcatOne("'");
  }

  /** A token list's text is the text of its three runs. */
  lemma ConcatThree(s: seq<string>, on: nat, co: nat)
    requires on + co <= |s|
    ensures Concat(s) == Concat(s[..on]) + Concat(s[on..|s| - co]) + Concat(s[|s| - co..])
  {
    var m := |s| - co;
    ConcatSplit(s, m);
    ConcatSplit(s[..m], on);
    assert s[..m][..on] == s[..on] && s[..m][on..] == s[on..m];
  }

  lemma Regroup(whole: string, a: string, rest: string, b: string, c: string, d: string)
    requires whole == a + rest && rest == b + c + d
    ensures whole == a + b + c + d
  {
  }

  /** Text made of tokens that are each at most one character and not "o" has no letter 'o'. */
  lemma {:induction false} NoLetterO(parts: seq<string>)
    requires forall i :: 0 <= i < |parts| ==> |parts[i]| <= 1 && parts[i] != "o"
    ensures 'o' !in Concat(parts)
    decreases |parts|
  {
    if |parts| > 0 {
      var last := parts[|parts| - 1];
      NoLetterO(parts[..|parts| - 1]);
      if |last| == 1 {
        assert last == [last[0]];
      }
    }
  }

  /** Non-vowel tokens of a tokenised syllable never spell a letter 'o'. */
  lemma ConsonantText(parts: seq<string>)
    requires forall i :: 0 <= i < |parts| ==> Shaped(parts[i]) && !IsVowel(parts[i])
    ensures 'o' !in Concat(parts)
  {
    assert IsVowel("o");
    NoLetterO(parts);
  }

  /** Material made of consonant tokens is "None" only when there are no tokens. */
  lemma SentinelText(parts: seq<string>, material: string)
    requires forall i :: 0 <= i < |parts| ==> Shaped(parts[i]) && !IsVowel(parts[i])
    requires material == (if |parts| == 0 then "None" else Concat(parts))
    ensures material == "None" <==> |parts| == 0
  {
    if |parts| > 0 {
      ConsonantText(parts);
      assert "None"[1] == 'o';
      assert 'o' in "None" && 'o' !in material;
    }
  }

  /** The "None" sentinel cannot be confused with real material: it is
      reported exactly when the onset (or coda) is empty. */
  lemma MaterialSentinel(syl: string, toks: seq<string>, info: Info)
    requires Tokens(syl) == Some(toks) && Analyse(toks) == Ok(info)
    ensures info.Info?
    ensures info.onsetCons == "None" <==> info.nOnsetCons == 0
    ensures info.codaCons == "None" <==> info.nCodaCons == 0
  {
    AnalyseMaterial(toks, info);
    OnsetCoda(toks, info);
    TokensSound(syl, toks);
    SentinelTokens(toks, info);
  }

  /** Stripping the stress mark keeps every remaining token's form. */
  lemma ShapedStrip(toks: seq<string>)
    requires |toks| > 0 && forall i :: 0 <= i < |toks| ==> Shaped(toks[i])
    ensures forall i :: 0 <= i < |StripStress(toks)| ==> Shaped(StripStress(toks)[i])
  {
  }

  /** The sentinel argument on the token list of a syllable, given what
      measuring it established. */
  lemma SentinelTokens(toks: seq<string>, info: Info)
    requires |toks| > 0 && info.Info?
    requires forall i :: 0 <= i < |toks| ==> Shaped(toks[i])
    requires var s := StripStress(toks);
      && info.nOnsetCons + info.nCodaCons < |s|
      && info.onsetCons == (if info.nOnsetCons == 0 then "None" else Concat(s[..info.nOnsetCons]))
      && info.codaCons == (if info.nCodaCons == 0 then "None" else Concat(s[|s| - info.nCodaCons..]))
    requires var s := StripStress(toks);
      && (forall i :: 0 <= i < info.nOnsetCons ==> !IsVowel(s[i]))
      && (forall i :: |s| - info.nCodaCons <= i < |s| ==> !IsVowel(s[i]))
    ensures info.onsetCons == "None" <==> info.nOnsetCons == 0
    ensures info.codaCons == "None" <==> info.nCodaCons == 0
  {
    ShapedStrip(toks);
    SentinelRuns(StripStress(toks), info.nOnsetCons, info.nCodaCons, info.onsetCons, info.codaCons);
  }

  /** Onset and coda runs of consonant tokens, and the material reported for them. */
  lemma SentinelRuns(s: seq<string>, on: nat, co: nat, onsetCons: string, codaCons: string)
    requires on + co <= |s|
    requires forall i :: 0 <= i < |s| ==> Shaped(s[i])
    requires forall i :: 0 <= i < on ==> !IsVowel(s[i])
    requires forall i :: |s| - co <= i < |s| ==> !IsVowel(s[i])
    requires onsetCons == (if on == 0 then "None" else Concat(s[..on]))
    requires codaCons == (if co == 0 then "None" else Concat(s[|s| - co..]))
    ensures onsetCons == "None" <==> on == 0
    ensures codaCons == "None" <==> co == 0
  {
    var onset, coda := s[..on], s[|s| - co..];
    assert forall i :: 0 <= i < |onset| ==> onset[i] == s[i];
    assert forall i :: 0 <= i < |coda| ==> coda[i] == s[|s| - co + i];
    SentinelText(onset, onsetCons);
    SentinelText(coda, codaCons);
  }

  /** An accepted token list, given its vowel positions. */
  lemma AnalyseAccepts(toks: seq<string>, inds: seq<nat>)
    requires |toks| > 0 && VowelPositions(StripStress(toks)) == inds && 0 < |inds| <= 3
    ensures var s := StripStress(toks);
      Analyse(toks) == Ok(Measured(s, inds[0], inds[|inds| - 1], Nucleus(s, inds)))
  {
  }

  /** A stressed one-consonant syllable: the mark is dropped before measuring. */
  lemma StressedExample()
    ensures SyllableInfo("'za") == Ok(Info(1, 0, "z", "None", "a"))
  {
    var t := ["'", "z", "a"];
    assert Tokens("'za") == Some(t) by {
      NoTildeNoMerge("'za");
      assert Chars("'za") == t;
    }
    StressedMeasure(t);
  }

  lemma StressedMeasure(t: seq<string>)
    requires t == ["'", "z", "a"]
    ensures Analyse(t) == Ok(Info(1, 0, "z", "None", "a"))
  {
    var s := ["z", "a"];
    assert StripStress(t) == s;
    assert VowelPositions(s) == [1] by {
      assert !IsVowel("z") && IsVowel("a");
      assert s[..1] == ["z"];
      assert VowelPositions(s[..1]) == [];
    }
    AnalyseAccepts(t, [1]);
    StressedMeasured(s);
  }

  lemma StressedMeasured(s: seq<string>)
    requires s == ["z", "a"]
    ensures Measured(s, 1, 1, Nucleus(s, [1])) == Info(1, 0, "z", "None", "a")
  {
    assert Nucleus(s, [1]) == "a" + "" == "a";
    assert s[..1] == ["z"];
    ConcatOne("z");
  }

  /** A stress mark that is not the first character is counted as an onset consonant. */
  lemma InnerStressExample()
    ensures SyllableInfo("k'a") == Ok(Info(2, 0, "k'", "None", "a"))
  {
    var s := ["k", "'", "a"];
    assert Tokens("k'a") == Some(s) by {
      NoTildeNoMerge("k'a");
      assert Chars("k'a") == s;
    }
    InnerStressMeasure(s);
  }

  lemma InnerStressMeasure(s: seq<string>)
    requires s == ["k", "'", "a"]
    ensures Analyse(s) == Ok(Info(2, 0, "k'", "None", "a"))
  {
    assert StripStress(s) == s;
    InnerStressVowels(s);
    AnalyseAccepts(s, [2]);
    InnerStressMeasured(s);
  }

  lemma InnerStressVowels(s: seq<string>)
    requires s == ["k", "'", "a"]
    ensures VowelPositions(s) == [2]
  {
    assert !IsVowel("k") && !IsVowel("'") && IsVowel("a");
    assert s[..1] == ["k"] && s[..2] == ["k", "'"] && s[..2][..1] == ["k"];
    assert VowelPositions(s[..1]) == [];
    assert VowelPositions(s[..2]) == [];
  }

  lemma InnerStressMeasured(s: seq<string>)
    requires s == ["k", "'", "a"]
    ensures Measured(s, 2, 2, Nucleus(s, [2])) == Info(2, 0, "k'", "None", "a")
  {
    var v := Nucleus(s, [2]);
    assert v == "a" + "" == "a";
    assert Concat(s[..2]) == "k'" by {
      ConcatAppend(["k"], ["'"]);
      ConcatOne("k");
      ConcatOne("'");
      assert ["k"] + ["'"] == s[..2];
    }
    assert Measured(s, 2, 2, v) == Info(2, 0, Concat(s[..2]), "None", v);
  }

  /** An empty syllable (two hyphens in a row) fails at the stress-mark test. */
  lemma EmptySyllableExample()
    ensures SyllableInfo("") == Err(IndexOutOfRange)
  {
    assert Tokens("") == Some([]) by {
      assert Chars("") == [];
    }
  }
}
