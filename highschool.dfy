/** What the three high-school scrapers (school-site news articles, Wikipedia
    and Grokipedia) share: the result record, what a fetched page offers, the
    clean-up of a captured name, and the selection of the first accepted
    candidate across patterns and matches. */
module HighSchool {

  import opened Options
  import opened Ascii

  /** `HighSchoolResult`: the school, where it is if the page says so, and
      the page it was read from. */
  datatype HighSchoolResult = HighSchoolResult(
    highSchool: string,
    city: Option<string>,
    state: Option<string>,
    sourceUrl: string,
    sourceName: string)

  /** A fetched page: the HTTP status, the body text, and what the regular
      expressions find in it.  `captures[k]` lists the group-1 matches of the
      k-th extraction pattern in text order (`re.findall`), and `locate(name)`
      is the two groups of the location pattern built around `name`, when that
      pattern matches. */
  datatype Page = Page(
    status: int,
    text: string,
    captures: seq<seq<string>>,
    locate: string -> Option<(string, string)>)

  /** Words that mark a page as being about a soccer player. */
  const SoccerTerms: seq<string> :=
    ["soccer", "football", "mls", "midfielder", "forward", "defender", "goalkeeper"]

  /** The lower-cased text mentions one of the soccer terms. */
  predicate IsSoccerPage(text: string) {
    ContainsAny(Lower(text), SoccerTerms)
  }

  /** The clean-up of a capture: stripped, every whitespace run collapsed to
      one space, then leading and trailing non-word characters removed. */
  function Clean(capture: string): (r: string)
    ensures |r| <= |capture|
    ensures r == [] || (IsWordChar(r[0]) && IsWordChar(r[|r| - 1]))
    ensures SingleSpaced(r) && All(r, BlankIfSpace)
  {
    var spaced := CollapseWs(Strip(capture));
    var r := TrimNonWord(spaced);
    CleanShape(spaced, r);
    r
  }

  /** The only whitespace character allowed is the space itself. */
  predicate BlankIfSpace(c: char) {
    IsSpace(c) ==> c == ' '
  }

  /** A substring of a single-spaced text is single-spaced. */
  lemma CleanShape(spaced: string, r: string)
    requires SingleSpaced(spaced) && All(spaced, BlankIfSpace)
    requires exists a :: OccursAt(spaced, r, a)
    ensures SingleSpaced(r) && All(r, BlankIfSpace)
  {
    var a :| OccursAt(spaced, r, a);
    SliceKeepsSingleSpaced(spaced, a, a + |r|);
    AllSlice(spaced, BlankIfSpace, a, a + |r|);
  }

  /** The location `_extract_location` reads after a name: both groups of the
      location pattern stripped, when it matches. */
  function StrippedLocation(found: Option<(string, string)>): (r: (Option<string>, Option<string>))
    ensures found.None? ==> r == (None, None)
    ensures found.Some? ==> r.0 == Some(Strip(found.value.0)) && r.1 == Some(Strip(found.value.1))
  {
    match found
    case None => (None, None)
    case Some((city, state)) => (Some(Strip(city)), Some(Strip(state)))
  }

  /** The first candidate of one pattern that is accepted once prepared. */
  function Select(cands: seq<string>, prep: string -> string, accept: string -> bool): Option<string> {
    if cands == [] then None
    else if accept(prep(cands[0])) then Some(prep(cands[0]))
    else Select(cands[1..], prep, accept)
  }

  /** Nothing is selected exactly when every candidate is rejected; what is
      selected is an accepted candidate preceded only by rejected ones. */
  lemma {:induction false} SelectChoice(cands: seq<string>, prep: string -> string, accept: string -> bool)
    ensures var r := Select(cands, prep, accept);
      && (r.None? <==> RejectedBefore(cands, |cands|, prep, accept))
      && (r.Some? ==> exists i :: 0 <= i < |cands| && r.value == prep(cands[i]) && accept(r.value)
                        && RejectedBefore(cands, i, prep, accept))
    decreases |cands|
  {
    if cands != [] && !accept(prep(cands[0])) {
      SelectChoice(cands[1..], prep, accept);
      assert forall i :: 1 <= i < |cands| ==> cands[i] == cands[1..][i - 1];
      var r := Select(cands[1..], prep, accept);
      if r.Some? {
        var k :| 0 <= k < |cands[1..]| && r.value == prep(cands[1..][k]) && accept(r.value)
                 && RejectedBefore(cands[1..], k, prep, accept);
        assert cands[k + 1] == cands[1..][k];
        assert RejectedBefore(cands, k + 1, prep, accept);
      }
    }
  }

  /** Every candidate before index `m` is rejected. */
  predicate RejectedBefore(cands: seq<string>, m: int, prep: string -> string, accept: string -> bool) {
    forall n :: 0 <= n < m && n < |cands| ==> !accept(prep(cands[n]))
  }

  /** The first accepted candidate, patterns in declared order and the matches
      of each pattern in text order. */
  function FirstAccepted(caps: seq<seq<string>>, prep: string -> string, accept: string -> bool): Option<string> {
    if caps == [] then None
    else if Select(caps[0], prep, accept).Some? then Select(caps[0], prep, accept)
    else FirstAccepted(caps[1..], prep, accept)
  }

  /** Nothing is selected exactly when every match of every pattern is
      rejected; what is selected is an accepted match such that every match
      of an earlier pattern, and every earlier match of its own pattern, was
      rejected. */
  lemma {:induction false} FirstAcceptedChoice(caps: seq<seq<string>>, prep: string -> string, accept: string -> bool)
    ensures var r := FirstAccepted(caps, prep, accept);
      && (r.None? <==> forall p :: 0 <= p < |caps| ==> RejectedBefore(caps[p], |caps[p]|, prep, accept))
      && (r.Some? ==> exists p, m :: 0 <= p < |caps| && 0 <= m < |caps[p]|
                        && r.value == prep(caps[p][m]) && accept(r.value)
                        && RejectedBefore(caps[p], m, prep, accept)
                        && forall q :: 0 <= q < p ==> RejectedBefore(caps[q], |caps[q]|, prep, accept))
    decreases |caps|
  {
    if caps != [] {
      SelectChoice(caps[0], prep, accept);
      if Select(caps[0], prep, accept).None? {
        FirstAcceptedChoice(caps[1..], prep, accept);
        assert forall p :: 1 <= p < |caps| ==> caps[p] == caps[1..][p - 1];
        var r := FirstAccepted(caps[1..], prep, accept);
        if r.Some? {
          var p, m :| 0 <= p < |caps[1..]| && 0 <= m < |caps[1..][p]|
                      && r.value == prep(caps[1..][p][m]) && accept(r.value)
                      && RejectedBefore(caps[1..][p], m, prep, accept)
                      && forall q :: 0 <= q < p ==> RejectedBefore(caps[1..][q], |caps[1..][q]|, prep, accept);
          assert caps[p + 1] == caps[1..][p];
          assert forall q :: 0 <= q < p + 1 ==> RejectedBefore(caps[q], |caps[q]|, prep, accept);
        }
      }
    }
  }

  /** One step of the selection: the rest of pattern `p`'s matches from `m` on,
      then the later patterns. */
  lemma FirstAcceptedStep(caps: seq<seq<string>>, p: nat, m: nat, prep: string -> string, accept: string -> bool)
    requires p < |caps| && m < |caps[p]|
    ensures Select(caps[p][m..], prep, accept) ==
              if accept(prep(caps[p][m])) then Some(prep(caps[p][m])) else Select(caps[p][m + 1..], prep, accept)
  {
    assert caps[p][m..][1..] == caps[p][m + 1..];
  }

  /** The selection over patterns `p..` is that of pattern `p`, or failing it,
      that of the later ones. */
  lemma FirstAcceptedNext(caps: seq<seq<string>>, p: nat, prep: string -> string, accept: string -> bool)
    requires p < |caps|
    ensures FirstAccepted(caps[p..], prep, accept) ==
              if Select(caps[p], prep, accept).Some? then Select(caps[p], prep, accept)
              else FirstAccepted(caps[p + 1..], prep, accept)
  {
    assert caps[p..][0] == caps[p];
    assert caps[p..][1..] == caps[p + 1..];
  }
  /** The first accepted candidate when each pattern yields its first match
      only (`re.search`), or nothing. */
  function FirstAcceptedMatch(firsts: seq<Option<string>>, prep: string -> string, accept: string -> bool): Option<string> {
    if firsts == [] then None
    else if firsts[0].Some? && accept(prep(firsts[0].value)) then Some(prep(firsts[0].value))
    else FirstAcceptedMatch(firsts[1..], prep, accept)
  }

  /** Nothing is selected exactly when every pattern's match is rejected; what
      is selected is an accepted match, every earlier pattern's match having
      been rejected. */
  lemma {:induction false} FirstAcceptedMatchChoice(firsts: seq<Option<string>>, prep: string -> string, accept: string -> bool)
    ensures var r := FirstAcceptedMatch(firsts, prep, accept);
      && (r.None? <==> forall p :: 0 <= p < |firsts| && firsts[p].Some? ==> !accept(prep(firsts[p].value)))
      && (r.Some? ==> exists p :: 0 <= p < |firsts| && firsts[p].Some? && r.value == prep(firsts[p].value)
                        && accept(r.value)
                        && forall q :: 0 <= q < p && firsts[q].Some? ==> !accept(prep(firsts[q].value)))
    decreases |firsts|
  {
    if firsts != [] && !(firsts[0].Some? && accept(prep(firsts[0].value))) {
      FirstAcceptedMatchChoice(firsts[1..], prep, accept);
      assert forall p :: 1 <= p < |firsts| ==> firsts[p] == firsts[1..][p - 1];
      var r := FirstAcceptedMatch(firsts[1..], prep, accept);
      if r.Some? {
        var p :| 0 <= p < |firsts[1..]| && firsts[1..][p].Some? && r.value == prep(firsts[1..][p].value)
                 && accept(r.value)
                 && forall q :: 0 <= q < p && firsts[1..][q].Some? ==> !accept(prep(firsts[1..][q].value));
        assert firsts[p + 1] == firsts[1..][p];
      }
    }
  }

  /** One step of the first-match selection: pattern `p`'s match is taken when
      it is accepted, and otherwise the later patterns decide. */
  lemma FirstAcceptedMatchStep(firsts: seq<Option<string>>, p: nat, prep: string -> string, accept: string -> bool)
    requires p < |firsts|
    ensures FirstAcceptedMatch(firsts[p..], prep, accept) ==
              if firsts[p].Some? && accept(prep(firsts[p].value)) then Some(prep(firsts[p].value))
              else FirstAcceptedMatch(firsts[p + 1..], prep, accept)
  {
    assert firsts[p..][0] == firsts[p];
    assert firsts[p..][1..] == firsts[p + 1..];
  }
}
