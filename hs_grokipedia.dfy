/** scrapers/highschool_grokipedia.py: the high school read from a player's
    Grokipedia article.  The browser is a parameter: what the search and the
    click on the player's name land on.  What is modelled is the query, the
    page gates, and the clean-up, prefix stripping, validation and selection
    of a captured school name. */
module HsGrokipedia {

  import opened Options
  import opened Ascii
  import opened Regex
  import opened HighSchool

  /** Lead-in phrases that the capture patterns can swallow, removed from the
      front of a cleaned name, in order and ignoring case. */
  const PrefixRules: seq<Rule> := [
    Rule([Begin, Alt(["He", "She"]), Plus(Space), Alt(["enrolled", "attended", "went"]), Plus(Space),
          Alt(["at", "to"]), Plus(Space)], true),
    Rule([Begin, Alt(["Dotson", "He", "She"]), Plus(Space), Lit("competed"), Plus(Space),
          Lit("for"), Plus(Space)], true),
    Rule([Begin, Alt(["Transitioning", "Moving"]), Plus(Space), Lit("to"), Plus(Space), Lit("high"),
          Plus(Space), Lit("school"), Plus(Space), Lit("at"), Plus(Space)], true),
    Rule([Begin, Lit("At"), Plus(Space)], true)
  ]

  /** Substrings that mark a club, a youth team or a university. */
  const SkipWords: seq<string> := [
    "youth", "academy", "mls", "usl", "college", "university",
    "national", "team", "club", "fc ", "sc ", "united", "sounders",
    "stanford", "ucla", "duke", "wake forest", "maryland"]

  /** Terms of which an accepted name contains one. */
  const SchoolTerms: seq<string> := ["high school", "prep", "preparatory"]

  /** A capture cleaned up and stripped of the lead-in phrases. */
  function Prep(capture: string): string {
    ApplyRules(PrefixRules, Clean(capture))
  }

  /** The validation chain of `_extract_high_school`, on a prepared name. */
  predicate Accepts(hs: string) {
    && 8 <= |hs| <= 60
    && !ContainsAny(Lower(hs), SkipWords)
    && ContainsAny(Lower(hs), SchoolTerms)
  }

  /** The result `_extract_high_school` returns for an article at `sourceUrl`. */
  function Extracted(caps: seq<seq<string>>, locate: string -> Option<(string, string)>,
                     sourceUrl: string): Option<HighSchoolResult>
  {
    match FirstAccepted(caps, Prep, Accepts)
    case None => None
    case Some(hs) =>
      var (city, state) := StrippedLocation(locate(hs));
      Some(HighSchoolResult(hs, city, state, sourceUrl, "Grokipedia"))
  }

  /** `_extract_high_school`: every match of every pattern, patterns in
      declared order and matches in text order, cleaned, stripped of the
      prefix phrases one rule after the other, and validated; the first
      accepted name is returned. */
  method ExtractHighSchool(caps: seq<seq<string>>, locate: string -> Option<(string, string)>,
                           sourceUrl: string) returns (r: Option<HighSchoolResult>)
    ensures r == Extracted(caps, locate, sourceUrl)
  {
    for p := 0 to |caps|
      invariant FirstAccepted(caps, Prep, Accepts) == FirstAccepted(caps[p..], Prep, Accepts)
    {
      FirstAcceptedNext(caps, p, Prep, Accepts);
      var matches := caps[p];
      for m := 0 to |matches|
        invariant Select(matches, Prep, Accepts) == Select(matches[m..], Prep, Accepts)
      {
        FirstAcceptedStep(caps, p, m, Prep, Accepts);
        var hs := Strip(matches[m]);
        hs := CollapseWs(hs);
        hs := TrimNonWord(hs);
        assert hs == Clean(matches[m]);
        hs := StripPrefixes(hs);
        assert hs == Prep(matches[m]);
        if |hs| < 8 || |hs| > 60 {
          continue;
        }
        if ContainsAny(Lower(hs), SkipWords) {
          continue;
        }
        if !ContainsAny(Lower(hs), SchoolTerms) {
          continue;
        }
        var (city, state) := StrippedLocation(locate(hs));
        return Some(HighSchoolResult(hs, city, state, sourceUrl, "Grokipedia"));
      }
      assert matches[|matches|..] == [];
    }
    return None;
  }

  /** The prefix loop: each pattern substituted away in turn. */
  method StripPrefixes(name: string) returns (hs: string)
    ensures hs == ApplyRules(PrefixRules, name)
  {
    hs := name;
    for k := 0 to |PrefixRules|
      invariant hs == ApplyRules(PrefixRules[..k], name)
    {
      assert PrefixRules[..k + 1][..k] == PrefixRules[..k];
      hs := Sub(PrefixRules[k].pat, hs, PrefixRules[k].ci);
    }
    assert PrefixRules[..|PrefixRules|] == PrefixRules;
  }

  lemma PrefixRulesArePrefixRules()
    ensures forall k :: 0 <= k < |PrefixRules| ==> PrefixRule(PrefixRules[k]) && PrefixRules[k].pat[1].Alt?
  {
  }

  /** Prefix stripping only drops a front part of the cleaned capture. */
  lemma PrepIsSuffix(capture: string)
    ensures var c := Clean(capture);
      |Prep(capture)| <= |c| && Prep(capture) == c[|c| - |Prep(capture)|..]
  {
    PrefixRulesArePrefixRules();
    ApplyPrefixRulesSuffix(PrefixRules, Clean(capture));
  }

  /** An extracted name is 8 to 60 characters long, contains no skip word and
      a school term, is the prepared form of some match with every earlier
      match rejected (a tail of its clean-up, by `PrepIsSuffix`), and the result is stamped with the article URL
      and "Grokipedia". */
  lemma ExtractedIsAccepted(caps: seq<seq<string>>, locate: string -> Option<(string, string)>, sourceUrl: string)
    requires Extracted(caps, locate, sourceUrl).Some?
    ensures var r := Extracted(caps, locate, sourceUrl).value;
      && 8 <= |r.highSchool| <= 60
      && (forall k :: 0 <= k < |SkipWords| ==> !Contains(Lower(r.highSchool), SkipWords[k]))
      && ContainsAny(Lower(r.highSchool), SchoolTerms)
      && r.sourceUrl == sourceUrl && r.sourceName == "Grokipedia"
      && exists p, m :: 0 <= p < |caps| && 0 <= m < |caps[p]| && r.highSchool == Prep(caps[p][m])
           && RejectedBefore(caps[p], m, Prep, Accepts)
           && forall q :: 0 <= q < p ==> RejectedBefore(caps[q], |caps[q]|, Prep, Accepts)
  {
    FirstAcceptedChoice(caps, Prep, Accepts);
  }

  /** The lead-ins of the first three rules begin with "d", "h", "m", "s" or
      "t", whatever the case. */
  lemma LeadInsMiss(s: string)
    requires |s| > 0 && LowerChar(s[0]) !in {'d', 'h', 'm', 's', 't'}
    ensures MissesStart(PrefixRules[0], s) && MissesStart(PrefixRules[1], s) && MissesStart(PrefixRules[2], s)
  {
    FirstCharMiss(PrefixRules[0], s);
    FirstCharMiss(PrefixRules[1], s);
    FirstCharMiss(PrefixRules[2], s);
  }

  /** The last rule's lead-in begins with "a", whatever the case. */
  lemma AtMisses(s: string)
    requires |s| > 0 && LowerChar(s[0]) != 'a'
    ensures MissesStart(PrefixRules[3], s)
  {
    FirstCharMiss(PrefixRules[3], s);
  }

  /** A name whose first character cannot begin any lead-in phrase is left
      as it is. */
  lemma PrefixRulesKeepOtherNames(s: string)
    requires s == [] || LowerChar(s[0]) !in {'a', 'd', 'h', 'm', 's', 't'}
    ensures ApplyRules(PrefixRules, s) == s
  {
    if s != [] {
      LeadInsMiss(s);
      AtMisses(s);
    }
    PrefixRulesMiss(PrefixRules, s);
  }

  /** A leading "At" and the whitespace after it are removed, and nothing
      else. */
  lemma AtPrefixRemoved(spaces: string, rest: string)
    requires spaces != [] && forall i :: 0 <= i < |spaces| ==> IsSpace(spaces[i])
    requires rest == [] || !IsSpace(rest[0])
    ensures ApplyRules(PrefixRules, "At" + spaces + rest) == rest
  {
    var s := "At" + spaces + rest;
    assert s[0] == 'A';
    LeadInsMiss(s);
    OnlyLastRuleApplies(PrefixRules, s);
    AtRuleStrips(spaces, rest);
  }

  lemma AtRuleStrips(spaces: string, rest: string)
    requires spaces != [] && forall i :: 0 <= i < |spaces| ==> IsSpace(spaces[i])
    requires rest == [] || !IsSpace(rest[0])
    ensures Sub(PrefixRules[3].pat, "At" + spaces + rest, PrefixRules[3].ci) == rest
  {
    var s := "At" + spaces + rest;
    var at := PrefixRules[3];
    assert s[2 + |spaces|..] == rest;
    WordThenSpaces(at.pat, s, "At", |spaces|, true);
    SubBeginAnchored(at.pat, s, true);
  }

  // ---------------------------------------------------------------------------
  // find_high_school

  /** The search query: the full name, "soccer", then the hometown city and the
      team when they are non-empty, joined by spaces. */
  function QueryText(fullName: string, city: Option<string>, team: Option<string>): string {
    fullName + " soccer" + (if Truthy(city) then " " + city.value else []) +
      (if Truthy(team) then " " + team.value else [])
  }

  /** `search_terms` built up and joined with spaces. */
  method BuildQuery(fullName: string, city: Option<string>, team: Option<string>) returns (q: string)
    ensures q == QueryText(fullName, city, team)
  {
    var terms := [fullName, "soccer"];
    assert Join(" ", terms) == fullName + " soccer";
    if Truthy(city) {
      JoinAppend(" ", terms, city.value);
      terms := terms + [city.value];
    }
    if Truthy(team) {
      JoinAppend(" ", terms, team.value);
      terms := terms + [team.value];
    }
    q := Join(" ", terms);
  }

  /** The article a search for the query leads to after clicking the player's
      name (exactly, or failing that as a substring): the URL shown then and
      the page there.  None when neither click succeeded or the navigation
      failed. */
  type Browser = string -> Option<(string, Page)>

  /** `find_high_school`: search, click through to the player, insist on an
      article URL ("/page/") and a soccer article, then extract. */
  method FindHighSchool(browse: Browser, first: string, last: string, city: Option<string>, team: Option<string>)
    returns (r: Option<HighSchoolResult>)
    ensures var landed := browse(QueryText(first + " " + last, city, team));
      && (r.Some? ==> landed.Some? && Contains(landed.value.0, "/page/") && IsSoccerPage(landed.value.1.text))
      && (landed.Some? && Contains(landed.value.0, "/page/") && IsSoccerPage(landed.value.1.text) ==>
            r == Extracted(landed.value.1.captures, landed.value.1.locate, landed.value.0))
  {
    var fullName := first + " " + last;
    var query := BuildQuery(fullName, city, team);
    var landed := browse(query);
    if landed.None? {
      return None;
    }
    var (currentUrl, page) := landed.value;
    if !Contains(currentUrl, "/page/") {
      return None;
    }
    if !IsSoccerPage(page.text) {
      return None;
    }
    r := ExtractHighSchool(page.captures, page.locate, currentUrl);
  }
}
