/** scrapers/highschool_scraper.py: the school-site and NCSA scraper.  Its
    fetching strategies are I/O; what is modelled is the order they are tried
    in, the validation of a captured school name, and the NCSA URL helpers. */
module HsScraper {

  import opened Options
  import opened Ascii
  import opened HighSchool

  /** Whole names that stand for "no school". */
  const Placeholders: seq<string> := ["n/a", "none", "unknown"]

  /** Whole names that are only a generic school word. */
  const GenericNames: seq<string> := ["high school", "prep", "academy"]

  /** Substrings that betray a false positive from bio text. */
  const SkipWords: seq<string> := [
    "joined", "signed", "played", "trained", "competed", "fire", "mls",
    "youth", "u-15", "u-17", "u-19", "development", "road", "against",
    "red bulls", "sounders", "galaxy", "united", "fc ", "sc "]

  /** Terms that mark an educational institution. */
  const SchoolTerms: seq<string> := ["high school", "prep", "preparatory", "college prep"]

  /** Words that make an "academy" a soccer academy. */
  const SoccerAcademyWords: seq<string> := ["soccer", "football", "fire", "mls", "development"]

  /** The validation chain of `_extract_high_school_from_text`, on a cleaned name. */
  predicate Accepts(hs: string) {
    && 4 <= |hs| <= 80
    && Lower(hs) !in Placeholders
    && Lower(hs) !in GenericNames
    && !ContainsAny(Lower(hs), SkipWords)
    && (if Contains(Lower(hs), "academy") then !ContainsAny(Lower(hs), SoccerAcademyWords)
        else ContainsAny(Lower(hs), SchoolTerms))
    && IsUpper(hs[0])
    && |SplitWs(hs)| >= 2
  }

  /** City stripped and state upper-cased from the location pattern's groups. */
  function Location(found: Option<(string, string)>): (Option<string>, Option<string>) {
    match found
    case None => (None, None)
    case Some((city, state)) => (Some(Strip(city)), Some(Upper(state)))
  }

  /** The result `_extract_high_school_from_text` returns, given the first
      match of each pattern. */
  function Extracted(firsts: seq<Option<string>>, locate: string -> Option<(string, string)>,
                     sourceUrl: string, sourceName: string): Option<HighSchoolResult>
  {
    match FirstAcceptedMatch(firsts, Clean, Accepts)
    case None => None
    case Some(hs) =>
      var (city, state) := Location(locate(hs));
      Some(HighSchoolResult(hs, city, state, sourceUrl, sourceName))
  }

  /** `_extract_high_school_from_text`: patterns in declared order, the first
      match of each cleaned and validated, the first accepted name returned. */
  method ExtractFromText(firsts: seq<Option<string>>, locate: string -> Option<(string, string)>,
                         sourceUrl: string, sourceName: string) returns (r: Option<HighSchoolResult>)
    ensures r == Extracted(firsts, locate, sourceUrl, sourceName)
  {
    for p := 0 to |firsts|
      invariant FirstAcceptedMatch(firsts, Clean, Accepts) == FirstAcceptedMatch(firsts[p..], Clean, Accepts)
    {
      FirstAcceptedMatchStep(firsts, p, Clean, Accepts);
      if firsts[p].Some? {
        var hs := Strip(firsts[p].value);
        hs := CollapseWs(hs);
        hs := TrimNonWord(hs);
        assert hs == Clean(firsts[p].value);
        if |hs| < 4 || |hs| > 80 {
          continue;
        }
        var low := Lower(hs);
        if low in Placeholders {
          continue;
        }
        if low in GenericNames {
          continue;
        }
        if ContainsAny(low, SkipWords) {
          continue;
        }
        if Contains(low, "academy") {
          if ContainsAny(low, SoccerAcademyWords) {
            continue;
          }
        } else if !ContainsAny(low, SchoolTerms) {
          continue;
        }
        if !IsUpper(hs[0]) {
          continue;
        }
        if |SplitWs(hs)| < 2 {
          continue;
        }
        var city: Option<string> := None;
        var state: Option<string> := None;
        var found := locate(hs);
        if found.Some? {
          city := Some(Strip(found.value.0));
          state := Some(Upper(found.value.1));
        }
        return Some(HighSchoolResult(hs, city, state, sourceUrl, sourceName));
      }
    }
    return None;
  }

  /** An extracted name passes every rule of the chain, is the clean-up of the
      first match of some pattern, every earlier pattern's first match was
      rejected, and the result carries the caller's source. */
  lemma ExtractedIsAccepted(firsts: seq<Option<string>>, locate: string -> Option<(string, string)>,
                            sourceUrl: string, sourceName: string)
    requires Extracted(firsts, locate, sourceUrl, sourceName).Some?
    ensures var r := Extracted(firsts, locate, sourceUrl, sourceName).value;
      var low := Lower(r.highSchool);
      && 4 <= |r.highSchool| <= 80
      && low !in Placeholders && low !in GenericNames
      && (forall k :: 0 <= k < |SkipWords| ==> !Contains(low, SkipWords[k]))
      && (Contains(low, "academy") ==> forall k :: 0 <= k < |SoccerAcademyWords| ==> !Contains(low, SoccerAcademyWords[k]))
      && (!Contains(low, "academy") ==> ContainsAny(low, SchoolTerms))
      && IsUpper(r.highSchool[0])
      && |SplitWs(r.highSchool)| >= 2
      && r.sourceUrl == sourceUrl && r.sourceName == sourceName
      && exists p :: 0 <= p < |firsts| && firsts[p].Some? && r.highSchool == Clean(firsts[p].value)
           && forall q :: 0 <= q < p && firsts[q].Some? ==> !Accepts(Clean(firsts[q].value))
  {
    FirstAcceptedMatchChoice(firsts, Clean, Accepts);
  }

  /** Nothing is extracted exactly when every pattern's first match, if any,
      is rejected. */
  lemma ExtractedNone(firsts: seq<Option<string>>, locate: string -> Option<(string, string)>,
                      sourceUrl: string, sourceName: string)
    ensures Extracted(firsts, locate, sourceUrl, sourceName).None? <==>
              forall p :: 0 <= p < |firsts| && firsts[p].Some? ==> !Accepts(Clean(firsts[p].value))
  {
    FirstAcceptedMatchChoice(firsts, Clean, Accepts);
  }

  /** A name without "academy" needs a school term; with it, the soccer words
      reject it instead. */
  lemma AcademyRule(hs: string)
    requires Accepts(hs)
    ensures ContainsAny(Lower(hs), ["academy", "high school", "prep", "preparatory", "college prep"])
  {
    var low := Lower(hs);
    if Contains(low, "academy") {
      assert ["academy", "high school", "prep", "preparatory", "college prep"][0] == "academy";
    } else {
      var k :| 0 <= k < |SchoolTerms| && Contains(low, SchoolTerms[k]);
      assert ["academy", "high school", "prep", "preparatory", "college prep"][k + 1] == SchoolTerms[k];
    }
  }

  /** `find_high_school`: direct signing URLs, the player's bio page, NCSA,
      then a web search, each tried only when the earlier ones found nothing. */
  method FindHighSchool(direct: Option<HighSchoolResult>, bio: Option<HighSchoolResult>,
                        ncsa: Option<HighSchoolResult>, search: Option<HighSchoolResult>)
    returns (r: Option<HighSchoolResult>)
    ensures direct.Some? ==> r == direct
    ensures direct.None? && bio.Some? ==> r == bio
    ensures direct.None? && bio.None? && ncsa.Some? ==> r == ncsa
    ensures direct.None? && bio.None? && ncsa.None? ==> r == search
  {
    if direct.Some? {
      return direct;
    }
    if bio.Some? {
      return bio;
    }
    if ncsa.Some? {
      return ncsa;
    }
    if search.Some? {
      return search;
    }
    return None;
  }

  // ---------------------------------------------------------------------------
  // NCSA helpers

  /** `_extract_hs_from_ncsa_url`, given the slug the URL pattern captures:
      hyphens become spaces and the words are title-cased. */
  function NcsaSchoolName(slug: Option<string>): (r: Option<string>)
    ensures r.None? <==> slug.None?
    ensures r.Some? ==> |r.value| == |slug.value|
    ensures r.Some? ==> forall i :: 0 <= i < |slug.value| ==>
              (r.value[i] == ' ' <==> slug.value[i] == '-' || slug.value[i] == ' ')
    ensures r.Some? ==> forall i :: 0 <= i < |slug.value| && IsLetter(slug.value[i]) ==>
              (IsUpper(r.value[i]) <==> i == 0 || !IsLetter(slug.value[i - 1]))
    ensures r.Some? ==> forall i :: 0 <= i < |slug.value| && !IsLetter(slug.value[i]) ==>
              r.value[i] == (if slug.value[i] == '-' then ' ' else slug.value[i])
    ensures r.Some? ==> forall i :: 0 <= i < |slug.value| && IsLetter(slug.value[i]) ==>
              r.value[i] == (if i > 0 && IsLetter(slug.value[i - 1]) then LowerChar(slug.value[i])
                             else UpperChar(slug.value[i]))
  {
    match slug
    case None => None
    case Some(s) =>
      TitleKeepsLetters(ReplaceChar(s, '-', ' '));
      Some(Title(ReplaceChar(s, '-', ' ')))
  }

  /** The state names the NCSA helper knows, title-cased. */
  const NcsaStates: map<string, string> := map[
    "Illinois" := "IL", "California" := "CA", "Texas" := "TX", "Florida" := "FL",
    "New York" := "NY", "Ohio" := "OH", "Georgia" := "GA", "Michigan" := "MI",
    "Pennsylvania" := "PA", "New Jersey" := "NJ", "Virginia" := "VA",
    "North Carolina" := "NC", "Washington" := "WA", "Arizona" := "AZ",
    "Massachusetts" := "MA", "Colorado" := "CO", "Indiana" := "IN",
    "Tennessee" := "TN", "Missouri" := "MO", "Maryland" := "MD",
    "Wisconsin" := "WI", "Minnesota" := "MN", "South Carolina" := "SC",
    "Alabama" := "AL", "Louisiana" := "LA", "Kentucky" := "KY",
    "Oregon" := "OR", "Oklahoma" := "OK", "Connecticut" := "CT",
    "Iowa" := "IA", "Mississippi" := "MS", "Arkansas" := "AR",
    "Utah" := "UT", "Kansas" := "KS", "Nevada" := "NV",
    "New Mexico" := "NM", "Nebraska" := "NE", "West Virginia" := "WV"
  ]

  /** The state of an NCSA URL: the table's code for a known name, otherwise
      its first two characters upper-cased. */
  function NcsaState(name: string): (r: string)
    ensures name in NcsaStates ==> r == NcsaStates[name]
    ensures name !in NcsaStates && |name| >= 2 ==> r == Upper(name[..2])
    ensures name !in NcsaStates && |name| < 2 ==> r == name
  {
    if name in NcsaStates then NcsaStates[name]
    else if |name| >= 2 then Upper(name[..2])
    else name
  }

  /** `_extract_location_from_ncsa`, given the two path segments after
      `{mens|womens}-soccer-recruiting/` (state, then city) when the URL has
      them: (city, state) title-cased from the slugs, the state mapped to a
      code or cut to two upper-case characters; (None, None) otherwise. */
  function NcsaLocation(segments: Option<(string, string)>): (r: (Option<string>, Option<string>))
    ensures segments.None? ==> r == (None, None)
    ensures segments.Some? ==> r.0 == NcsaSchoolName(Some(segments.value.1))
    ensures segments.Some? ==> r.1 == Some(NcsaState(NcsaSchoolName(Some(segments.value.0)).value))
  {
    match segments
    case None => (None, None)
    case Some((state, city)) =>
      (Some(Title(ReplaceChar(city, '-', ' '))), Some(NcsaState(Title(ReplaceChar(state, '-', ' ')))))
  }

  /** Every state code the NCSA helper produces has at most two characters,
      and one derived from a slug of two or more characters is upper-case. */
  lemma NcsaStateShort(segments: Option<(string, string)>)
    requires segments.Some?
    ensures var st := NcsaLocation(segments).1.value;
      |st| <= 2 && (|segments.value.0| >= 2 ==> |st| == 2)
  {
    var name := Title(ReplaceChar(segments.value.0, '-', ' '));
    if name in NcsaStates {
      NcsaCodesAreTwoLetters(name);
    }
  }

  lemma NcsaCodesAreTwoLetters(name: string)
    requires name in NcsaStates
    ensures |NcsaStates[name]| == 2
  {
  }
}
