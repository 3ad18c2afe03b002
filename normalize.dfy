/** scrapers/normalize.py: the canonical form of a high-school name used for
    matching, and the split of a "City, State" hometown. */
module Normalize {

  import opened Options
  import opened Ascii
  import opened Regex

  // ---------------------------------------------------------------------------
  // normalize_high_school

  /** The six institutional suffixes, each preceded by whitespace and anchored
      at the end, in the order they are applied (all case-insensitive). */
  const SuffixRules: seq<Rule> := [
    Rule([Plus(Space), Lit("high"), Plus(Space), Lit("school"), End], true),
    Rule([Plus(Space), Lit("h"), Opt(Char('.')), Lit("s"), Opt(Char('.')), End], true),
    Rule([Plus(Space), Lit("secondary"), Plus(Space), Lit("school"), End], true),
    Rule([Plus(Space), Lit("prep"), Plus(Space), Lit("school"), End], true),
    Rule([Plus(Space), Lit("preparatory"), End], true),
    Rule([Plus(Space), Lit("academy"), End], true)
  ]

  /** Apostrophes and periods, removed after the suffixes. */
  const Punctuation: set<char> := {'\'', '.'}

  /** The normalised name: lower-cased and stripped, every suffix rule applied
      once in order, punctuation removed, whitespace collapsed, stripped again.
      None for a missing or empty name. */
  function Normalized(name: Option<string>): (r: Option<string>)
    ensures r.None? <==> name.None? || name.value == []
  {
    if name.None? || name.value == [] then None
    else Some(Strip(CollapseWs(RemoveChars(ApplyRules(SuffixRules, Strip(Lower(name.value))), Punctuation))))
  }

  /** `normalize_high_school`: the suffix loop reassigns the name once per rule. */
  method NormalizeHighSchool(name: Option<string>) returns (r: Option<string>)
    ensures r == Normalized(name)
  {
    if name.None? || name.value == [] {
      return None;
    }
    var start := Strip(Lower(name.value));
    var s := start;
    for k := 0 to |SuffixRules|
      invariant s == ApplyRules(SuffixRules[..k], start)
    {
      assert SuffixRules[..k + 1][..k] == SuffixRules[..k];
      s := Sub(SuffixRules[k].pat, s, SuffixRules[k].ci);
    }
    assert SuffixRules[..|SuffixRules|] == SuffixRules;
    s := RemoveChars(s, Punctuation);
    s := CollapseWs(s);
    return Some(Strip(s));
  }

  lemma SuffixRulesAreSuffixRules()
    ensures forall k :: 0 <= k < |SuffixRules| ==> SuffixRule(SuffixRules[k])
  {
  }

  /** The normalised name is lower-case, trimmed, free of `'` and `.`, and has
      no run of two or more whitespace characters. */
  lemma NormalizedShape(name: Option<string>)
    requires Normalized(name).Some?
    ensures var r := Normalized(name).value;
      && NoUpper(r)
      && (r == [] || (!IsSpace(r[0]) && !IsSpace(r[|r| - 1])))
      && '\'' !in r && '.' !in r
      && SingleSpaced(r)
  {
    var lowered := Strip(Lower(name.value));
    StrippedLowerHasNoUpper(name.value);
    SuffixRulesAreSuffixRules();
    ApplySuffixRulesPrefix(SuffixRules, lowered);
    var cut := ApplyRules(SuffixRules, lowered);
    SliceKeepsNoUpper(lowered, 0, |cut|);
    assert cut == lowered[0..|cut|];
    FinishingKeepsShape(cut);
  }

  lemma StrippedLowerHasNoUpper(s: string)
    ensures NoUpper(Strip(Lower(s)))
  {
    var t := Lower(s);
    var r := Strip(t);
    var a :| OccursAt(t, r, a);
    SliceKeepsNoUpper(t, a, a + |r|);
  }

  /** Neither an upper-case letter nor punctuation. */
  predicate Plain(c: char) {
    !IsUpper(c) && c !in Punctuation
  }

  /** Lower-case, free of `'` and `.`, and single-spaced. */
  predicate FinalShape(r: string) {
    NoUpper(r) && '\'' !in r && '.' !in r && SingleSpaced(r)
  }

  /** Removing punctuation, collapsing whitespace and stripping keep a
      lower-case name lower-case and give it its final shape. */
  lemma FinishingKeepsShape(cut: string)
    requires NoUpper(cut)
    ensures FinalShape(Strip(CollapseWs(RemoveChars(cut, Punctuation))))
  {
    var bare := RemoveChars(cut, Punctuation);
    AllRemoveChars(cut, Punctuation, Plain);
    var spaced := CollapseWs(bare);
    AllCollapseWs(bare, Plain);
    StripPlain(spaced);
  }

  /** Stripping a single-spaced string of plain characters gives the final
      shape. */
  lemma StripPlain(spaced: string)
    requires All(spaced, Plain) && SingleSpaced(spaced)
    ensures FinalShape(Strip(spaced))
  {
    var r := Strip(spaced);
    var b :| OccursAt(spaced, r, b);
    AllSlice(spaced, Plain, b, b + |r|);
    SliceKeepsSingleSpaced(spaced, b, b + |r|);
    assert All(r, Plain);
    assert forall i :: 0 <= i < |r| ==> r[i] != '\'' && r[i] != '.';
  }

  /** Upper-casing the input does not change the normalised name. */
  lemma NormalizedIgnoresCase(s: string)
    ensures Normalized(Some(Upper(s))) == Normalized(Some(s))
  {
    LowerOfUpper(s);
  }

  /** Each suffix rule that fires removes a tail beginning with whitespace. */
  lemma SuffixNeedsSpace(k: nat, s: string)
    requires k < |SuffixRules|
    ensures var t := Sub(SuffixRules[k].pat, s, true);
      t == s || (|t| < |s| && t == s[..|t|] && IsSpace(s[|t|]))
  {
    var p := SuffixRules[k].pat;
    SuffixRulesAreSuffixRules();
    SubEndAnchored(p, s, true);
    var r := SearchFrom(p, s, 0, true);
    if r.Some? {
      SpansStartsWithSpace(p, s, r.value.0, r.value.1, true);
    }
  }

  /** The "academy" rule does fire: a name ending in a word, then whitespace
      and "academy" in any case, loses exactly the whitespace and "academy". */
  lemma AcademyRemoved(w: string, sp: string, academy: string)
    requires |w| > 0 && !IsSpace(w[|w| - 1])
    requires |sp| > 0 && forall i :: 0 <= i < |sp| ==> IsSpace(sp[i])
    requires |academy| == 7 && forall i :: 0 <= i < 7 ==> LowerChar(academy[i]) == "academy"[i]
    ensures Sub(SuffixRules[5].pat, w + sp + academy, true) == w
  {
    var p := SuffixRules[5].pat;
    var s := w + sp + academy;
    var k := |w|;
    assert forall i :: k <= i < k + |sp| ==> s[i] == sp[i - k];
    assert forall i :: 0 <= i < 7 ==> s[k + |sp| + i] == academy[i];
    AcademyTailAt(s, k + |sp|);
    AcademySpans(s, k, k + |sp|);
    forall j | 0 <= j < k
      ensures !Spans(p, s, j, |s|, true)
    {
      assert s[k - 1] == w[k - 1];
      AcademyNotBefore(s, j, k);
    }
    SubEndAnchoredSpec(p, s, true);
    assert s[..k] == w;
  }

  /** "academy", in any case, ends `s` at `m`. */
  lemma AcademyTailAt(s: string, m: nat)
    requires m + 7 == |s| && forall i :: 0 <= i < 7 ==> LowerChar(s[m + i]) == "academy"[i]
    ensures WordAt(s, m, "academy", true)
  {
    forall i | 0 <= i < 7 ensures SameChar(s[m + i], "academy"[i], true) {
      assert LowerChar("academy"[i]) == "academy"[i];
    }
  }

  /** Whitespace from `k` to `m`, then "academy" to the end: the rule matches
      from `k`. */
  lemma AcademySpans(s: string, k: nat, m: nat)
    requires k < m && m + 7 == |s| && AllIn(Space, s, k, m, true)
    requires WordAt(s, m, "academy", true)
    ensures Spans(SuffixRules[5].pat, s, k, |s|, true)
  {
    var p := SuffixRules[5].pat;
    assert p == [Plus(Space), Lit("academy"), End];
    assert SpansFrom(p, 2, s, |s|, |s|, true);
    assert WordAt(s, m, ["academy"][0], true) && m + |["academy"][0]| == |s|;
    assert SpansFrom(p, 1, s, m, |s|, true);
  }

  /** A match of the rule covers only whitespace up to the "academy" at the
      end, so it cannot start before a non-space character. */
  lemma AcademyNotBefore(s: string, j: nat, k: nat)
    requires j < k <= |s| && !IsSpace(s[k - 1]) && k + 7 < |s|
    ensures !Spans(SuffixRules[5].pat, s, j, |s|, true)
  {
    var p := SuffixRules[5].pat;
    assert p == [Plus(Space), Lit("academy"), End];
    if Spans(p, s, j, |s|, true) {
      var m :| j < m <= |s| && AllIn(Space, s, j, m, true) && SpansFrom(p, 1, s, m, |s|, true);
      assert false;
    }
  }

  /** Since every rule needs whitespace before its suffix, the suffix rules
      never remove the first word of the lowered, stripped name: a name that
      is only a suffix phrase, such as "High School", keeps at least "high". */
  lemma {:induction false} CutKeepsFirstWord(n: nat, s: string)
    requires n <= |SuffixRules|
    ensures LeadingRun(s, NotSpace) <= |ApplyRules(SuffixRules[..n], s)|
    decreases n
  {
    if n > 0 {
      var init := SuffixRules[..n - 1];
      assert SuffixRules[..n][..n - 1] == init;
      CutKeepsFirstWord(n - 1, s);
      var cut := ApplyRules(init, s);
      SuffixRulesAreSuffixRules();
      ApplySuffixRulesPrefix(init, s);
      SuffixNeedsSpace(n - 1, cut);
      var t := Sub(SuffixRules[n - 1].pat, cut, true);
      assert ApplyRules(SuffixRules[..n], s) == t;
      CutAtSpaceKeepsFirstWord(s, cut, t);
    }
  }

  /** Cutting a prefix of `s` at a whitespace character keeps the first word. */
  lemma CutAtSpaceKeepsFirstWord(s: string, cut: string, t: string)
    requires |cut| <= |s| && cut == s[..|cut|] && LeadingRun(s, NotSpace) <= |cut|
    requires t == cut || (|t| < |cut| && t == cut[..|t|] && IsSpace(cut[|t|]))
    ensures LeadingRun(s, NotSpace) <= |t|
  {
    if t != cut {
      assert s[|t|] == cut[|t|];
    }
  }

  // ---------------------------------------------------------------------------
  // parse_hometown

  /** The fifty states and the District of Columbia, by lower-case full name. */
  const StateCodes: map<string, string> := map[
    "alabama" := "AL", "alaska" := "AK", "arizona" := "AZ", "arkansas" := "AR",
    "california" := "CA", "colorado" := "CO", "connecticut" := "CT", "delaware" := "DE",
    "florida" := "FL", "georgia" := "GA", "hawaii" := "HI", "idaho" := "ID",
    "illinois" := "IL", "indiana" := "IN", "iowa" := "IA", "kansas" := "KS",
    "kentucky" := "KY", "louisiana" := "LA", "maine" := "ME", "maryland" := "MD",
    "massachusetts" := "MA", "michigan" := "MI", "minnesota" := "MN", "mississippi" := "MS",
    "missouri" := "MO", "montana" := "MT", "nebraska" := "NE", "nevada" := "NV",
    "new hampshire" := "NH", "new jersey" := "NJ", "new mexico" := "NM", "new york" := "NY",
    "north carolina" := "NC", "north dakota" := "ND", "ohio" := "OH", "oklahoma" := "OK",
    "oregon" := "OR", "pennsylvania" := "PA", "rhode island" := "RI", "south carolina" := "SC",
    "south dakota" := "SD", "tennessee" := "TN", "texas" := "TX", "utah" := "UT",
    "vermont" := "VT", "virginia" := "VA", "washington" := "WA", "west virginia" := "WV",
    "wisconsin" := "WI", "wyoming" := "WY", "district of columbia" := "DC"
  ]

  /** The state part: a full name in the table, whatever its case, becomes its
      code; another two-character text is upper-cased; anything else is kept. */
  function StateCode(state: string): (r: string)
    ensures Lower(state) in StateCodes ==> r == StateCodes[Lower(state)]
    ensures Lower(state) !in StateCodes && |state| == 2 ==> r == Upper(state)
    ensures Lower(state) !in StateCodes && |state| != 2 ==> r == state
  {
    var low := Lower(state);
    if low in StateCodes then StateCodes[low]
    else if |state| == 2 then Upper(state)
    else state
  }

  /** `parse_hometown`: (city, state) from "City, State"; the city is the trimmed
      text before the first comma and the state comes from the trimmed text after
      the last one. */
  function ParseHometown(hometown: Option<string>): (r: (Option<string>, Option<string>))
    ensures hometown.None? || hometown.value == [] ==> r == (None, None)
    ensures hometown.Some? && hometown.value != [] && ',' !in hometown.value ==>
              r == (Some(Strip(hometown.value)), None)
    ensures hometown.Some? && ',' in hometown.value ==> r.0.Some? && r.1.Some?
  {
    if hometown.None? || hometown.value == [] then (None, None)
    else
      var parts := SplitOn(hometown.value, ',');
      if |parts| < 2 then (Some(Strip(hometown.value)), None)
      else (Some(Strip(parts[0])), Some(StateCode(Strip(Strip(parts[|parts| - 1])))))
  }

  /** With a comma, the city is the trimmed text before the first comma and the
      state is derived from the trimmed text after the last comma; whatever lies
      between is ignored. */
  lemma HometownWithComma(h: string, i: nat, j: nat)
    requires i <= j < |h| && h[i] == ',' && h[j] == ','
    requires ',' !in h[..i] && ',' !in h[j + 1..]
    ensures ParseHometown(Some(h)) == (Some(Strip(h[..i])), Some(StateCode(Strip(h[j + 1..]))))
  {
    SplitFirstLast(h, ',', i, j);
    StripIdempotent(h[j + 1..]);
  }

  /** The first part of a split ends at the first separator and the last part
      starts after the last one. */
  lemma SplitFirstLast(h: string, c: char, i: nat, j: nat)
    requires i <= j < |h| && h[i] == c && h[j] == c
    requires c !in h[..i] && c !in h[j + 1..]
    ensures var parts := SplitOn(h, c);
      |parts| > 1 && parts[0] == h[..i] && parts[|parts| - 1] == h[j + 1..]
  {
    var parts := SplitOn(h, c);
    SplitOnLast(h, c);
    var first := parts[0];
    var last := parts[|parts| - 1];
    assert c in h;
    assert |first| == i;
    assert |h| - |last| - 1 == j;
  }

  /** Full names are recognised whatever their case. */
  lemma StateNameAnyCase(state: string)
    requires Lower(state) in StateCodes
    ensures StateCode(state) == StateCode(Lower(state)) == StateCode(Upper(state))
  {
    LowerOfUpper(state);
    LowerIdempotent(state);
  }
}
