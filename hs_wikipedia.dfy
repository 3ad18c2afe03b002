/** scrapers/highschool_wikipedia.py: the high school read from a player's
    Wikipedia article.  The browser is a parameter (`Wiki`); what is modelled
    is the order of the article URLs, the page gates, the search fallback and
    the validation and selection of a captured school name. */
module HsWikipedia {

  import opened Options
  import opened Ascii
  import opened HighSchool

  /** Substrings that mark a club, a youth team or a university. */
  const SkipWords: seq<string> := [
    "youth", "academy", "mls", "usl", "college", "university",
    "national", "team", "club", "fc ", "sc ", "united"]

  /** Terms of which an accepted name contains one. */
  const SchoolTerms: seq<string> := ["high school", "prep", "preparatory"]

  /** The validation chain of `_extract_high_school`, on a cleaned name. */
  predicate Accepts(hs: string) {
    && 8 <= |hs| <= 60
    && !ContainsAny(Lower(hs), SkipWords)
    && ContainsAny(Lower(hs), SchoolTerms)
  }

  /** The result `_extract_high_school` returns for a page read at `sourceUrl`. */
  function Extracted(caps: seq<seq<string>>, locate: string -> Option<(string, string)>,
                     sourceUrl: string): Option<HighSchoolResult>
  {
    match FirstAccepted(caps, Clean, Accepts)
    case None => None
    case Some(hs) =>
      var (city, state) := StrippedLocation(locate(hs));
      Some(HighSchoolResult(hs, city, state, sourceUrl, "Wikipedia"))
  }

  /** `_extract_high_school`: every match of every pattern, patterns in
      declared order and matches in text order, cleaned and validated; the
      first accepted name is returned. */
  method ExtractHighSchool(caps: seq<seq<string>>, locate: string -> Option<(string, string)>,
                           sourceUrl: string) returns (r: Option<HighSchoolResult>)
    ensures r == Extracted(caps, locate, sourceUrl)
  {
    for p := 0 to |caps|
      invariant FirstAccepted(caps, Clean, Accepts) == FirstAccepted(caps[p..], Clean, Accepts)
    {
      FirstAcceptedNext(caps, p, Clean, Accepts);
      var matches := caps[p];
      for m := 0 to |matches|
        invariant Select(matches, Clean, Accepts) == Select(matches[m..], Clean, Accepts)
      {
        FirstAcceptedStep(caps, p, m, Clean, Accepts);
        var hs := Strip(matches[m]);
        hs := CollapseWs(hs);
        hs := TrimNonWord(hs);
        assert hs == Clean(matches[m]);
        if |hs| < 8 || |hs| > 60 {
          continue;
        }
        if ContainsAny(Lower(hs), SkipWords) {
          continue;
        }
        if !ContainsAny(Lower(hs), SchoolTerms) {
          continue;
        }
        var (city, state) := StrippedLocation(locate(hs));
        return Some(HighSchoolResult(hs, city, state, sourceUrl, "Wikipedia"));
      }
      assert matches[|matches|..] == [];
    }
    return None;
  }

  /** An extracted name is 8 to 60 characters long, contains no skip word and
      a school term, is the clean-up of some match with every earlier match
      rejected, and the result is stamped with the page URL and "Wikipedia". */
  lemma ExtractedIsAccepted(caps: seq<seq<string>>, locate: string -> Option<(string, string)>, sourceUrl: string)
    requires Extracted(caps, locate, sourceUrl).Some?
    ensures var r := Extracted(caps, locate, sourceUrl).value;
      && 8 <= |r.highSchool| <= 60
      && (forall k :: 0 <= k < |SkipWords| ==> !Contains(Lower(r.highSchool), SkipWords[k]))
      && ContainsAny(Lower(r.highSchool), SchoolTerms)
      && r.sourceUrl == sourceUrl && r.sourceName == "Wikipedia"
      && exists p, m :: 0 <= p < |caps| && 0 <= m < |caps[p]| && r.highSchool == Clean(caps[p][m])
           && RejectedBefore(caps[p], m, Clean, Accepts)
           && forall q :: 0 <= q < p ==> RejectedBefore(caps[q], |caps[q]|, Clean, Accepts)
  {
    FirstAcceptedChoice(caps, Clean, Accepts);
  }

  /** A club, an academy or a university is never accepted. */
  lemma RejectsNonSchools(hs: string)
    requires Contains(Lower(hs), "academy") || Contains(Lower(hs), "college") || Contains(Lower(hs), "university")
    ensures !Accepts(hs)
  {
    assert SkipWords[1] == "academy" && SkipWords[4] == "college" && SkipWords[5] == "university";
  }

  /** `_check_wikipedia_page`: a page is read only when it answered with status
      200 and its text is about soccer. */
  function CheckPage(page: Option<Page>, url: string): (r: Option<HighSchoolResult>)
    ensures r.Some? ==> page.Some? && page.value.status == 200 && IsSoccerPage(page.value.text)
    ensures page.Some? && page.value.status == 200 && IsSoccerPage(page.value.text) ==>
              r == Extracted(page.value.captures, page.value.locate, url)
  {
    match page
    case None => None
    case Some(pg) =>
      if pg.status != 200 then None
      else if !IsSoccerPage(pg.text) then None
      else Extracted(pg.captures, pg.locate, url)
  }

  /** Where a Wikipedia search for a query lands: the URL shown afterwards,
      the page there, and the `href` of its first search-result link if any. */
  datatype Landing = Landing(url: string, page: Page, firstResult: Option<string>)

  /** The browser, as far as this scraper sees it: the page at a URL (None
      when the navigation failed or gave no response), and where a search for
      a query lands (None when the navigation failed). */
  datatype Wiki = Wiki(open: string -> Option<Page>, search: string -> Option<Landing>)

  const WikiBase: string := "https://en.wikipedia.org"

  /** `f"{first}_{last}".replace(" ", "_")`. */
  function Slug(first: string, last: string): (r: string)
    ensures |r| == |first| + 1 + |last|
    ensures ' ' !in r
    ensures r[|first|] == '_'
    ensures forall i :: 0 <= i < |first| ==> r[i] == (if first[i] == ' ' then '_' else first[i])
    ensures forall i :: 0 <= i < |last| ==>
              r[|first| + 1 + i] == (if last[i] == ' ' then '_' else last[i])
  {
    ReplaceChar(first + "_" + last, ' ', '_')
  }

  /** The three article URLs, in the order they are tried: the plain article,
      then its "(soccer)" and "(American soccer)" disambiguations. */
  function ArticleUrls(first: string, last: string): (urls: seq<string>)
    ensures |urls| == 3
    ensures urls[0] == WikiBase + "/wiki/" + Slug(first, last)
    ensures urls[1] == urls[0] + "_(soccer)"
    ensures urls[2] == urls[0] + "_(American_soccer)"
    ensures urls[0] != urls[1] && urls[1] != urls[2] && urls[0] != urls[2]
  {
    var page := WikiBase + "/wiki/" + Slug(first, last);
    [page, page + "_(soccer)", page + "_(American_soccer)"]
  }

  /** The search query: the name, "soccer", and the team when there is one. */
  function SearchQuery(name: string, team: string): string {
    name + " soccer" + (if team == [] then [] else " " + team)
  }

  /** The URL shown is an article rather than a search page. */
  predicate IsArticle(url: string) {
    Contains(url, "/wiki/") && !Contains(url, "Special:Search")
  }

  /** `_search_wikipedia`: when the search lands on an article, that article is
      read; otherwise the first search result, if it has a non-empty link.
      Neither path checks the status or the soccer terms. */
  function Searched(w: Wiki, name: string, team: string): (r: Option<HighSchoolResult>)
    ensures var land := w.search(SearchQuery(name, team));
      land.None? ==> r.None?
    ensures var land := w.search(SearchQuery(name, team));
      land.Some? && IsArticle(land.value.url) ==>
        r == Extracted(land.value.page.captures, land.value.page.locate, land.value.url)
    ensures var land := w.search(SearchQuery(name, team));
      (land.Some? && !IsArticle(land.value.url) &&
       (land.value.firstResult.None? || land.value.firstResult.value == [])) ==> r.None?
    ensures var land := w.search(SearchQuery(name, team));
      (land.Some? && !IsArticle(land.value.url) &&
       land.value.firstResult.Some? && land.value.firstResult.value != []) ==>
        var url := WikiBase + land.value.firstResult.value;
        && (w.open(url).None? ==> r.None?)
        && (w.open(url).Some? ==> r == Extracted(w.open(url).value.captures, w.open(url).value.locate, url))
  {
    match w.search(SearchQuery(name, team))
    case None => None
    case Some(land) =>
      if IsArticle(land.url) then Extracted(land.page.captures, land.page.locate, land.url)
      else if land.firstResult.None? || land.firstResult.value == [] then None
      else
        var url := WikiBase + land.firstResult.value;
        match w.open(url)
        case None => None
        case Some(article) => Extracted(article.captures, article.locate, url)
  }

  /** The four attempts of `find_high_school`, in order. */
  function Attempts(w: Wiki, first: string, last: string, team: string): (xs: seq<Option<HighSchoolResult>>)
    ensures |xs| == 4
    ensures forall k :: 0 <= k < 3 ==>
              xs[k] == CheckPage(w.open(ArticleUrls(first, last)[k]), ArticleUrls(first, last)[k])
    ensures xs[3] == Searched(w, first + " " + last, team)
  {
    var urls := ArticleUrls(first, last);
    [CheckPage(w.open(urls[0]), urls[0]), CheckPage(w.open(urls[1]), urls[1]),
     CheckPage(w.open(urls[2]), urls[2]), Searched(w, first + " " + last, team)]
  }

  /** `find_high_school`: the plain article, the "(soccer)" and the
      "(American soccer)" disambiguations, then the search; the first of them
      that finds a school wins. */
  method FindHighSchool(w: Wiki, first: string, last: string, team: string) returns (r: Option<HighSchoolResult>)
    ensures r == FirstSome(Attempts(w, first, last, team))
  {
    ghost var xs := Attempts(w, first, last, team);
    var slug := Slug(first, last);
    var wikiUrl := WikiBase + "/wiki/" + slug;
    r := CheckPage(w.open(wikiUrl), wikiUrl);
    if r.Some? {
      return;
    }
    var soccerUrl := WikiBase + "/wiki/" + slug + "_(soccer)";
    r := CheckPage(w.open(soccerUrl), soccerUrl);
    if r.Some? {
      assert xs[0].None? && xs[1] == r;
      return;
    }
    var americanUrl := WikiBase + "/wiki/" + slug + "_(American_soccer)";
    r := CheckPage(w.open(americanUrl), americanUrl);
    if r.Some? {
      assert xs[0].None? && xs[1].None? && xs[2] == r;
      return;
    }
    r := Searched(w, first + " " + last, team);
    assert xs[0].None? && xs[1].None? && xs[2].None? && xs[3] == r;
    assert r.None? ==> forall i :: 0 <= i < 4 ==> xs[i].None?;
  }

  /** Whatever `find_high_school` returns is stamped "Wikipedia" and comes from
      one of the three article URLs or from the search. */
  lemma FoundSource(w: Wiki, first: string, last: string, team: string)
    requires FirstSome(Attempts(w, first, last, team)).Some?
    ensures var r := FirstSome(Attempts(w, first, last, team)).value;
      && r.sourceName == "Wikipedia"
      && (r.sourceUrl in ArticleUrls(first, last) || Searched(w, first + " " + last, team) == Some(r))
  {
    var xs := Attempts(w, first, last, team);
    var r := FirstSome(xs);
    var i :| 0 <= i < |xs| && xs[i] == r && forall j :: 0 <= j < i ==> xs[j].None?;
    var urls := ArticleUrls(first, last);
    if i < 3 {
      var pg := w.open(urls[i]).value;
      ExtractedStamp(pg.captures, pg.locate, urls[i]);
    } else {
      SearchedStamp(w, first + " " + last, team);
    }
  }

  /** A result is stamped with the URL it was read at. */
  lemma ExtractedStamp(caps: seq<seq<string>>, locate: string -> Option<(string, string)>, sourceUrl: string)
    ensures Extracted(caps, locate, sourceUrl).Some? ==>
              Extracted(caps, locate, sourceUrl).value.sourceUrl == sourceUrl &&
              Extracted(caps, locate, sourceUrl).value.sourceName == "Wikipedia"
  {
  }

  /** A search result is stamped "Wikipedia". */
  lemma SearchedStamp(w: Wiki, name: string, team: string)
    ensures Searched(w, name, team).Some? ==> Searched(w, name, team).value.sourceName == "Wikipedia"
  {
    var land := w.search(SearchQuery(name, team));
    if land.Some? {
      if IsArticle(land.value.url) {
        ExtractedStamp(land.value.page.captures, land.value.page.locate, land.value.url);
      } else if land.value.firstResult.Some? && land.value.firstResult.value != [] {
        var url := WikiBase + land.value.firstResult.value;
        if w.open(url).Some? {
          ExtractedStamp(w.open(url).value.captures, w.open(url).value.locate, url);
        }
      }
    }
  }
}
