/** scrapers/roster_scraper.py: the MLS roster scraper.  The browser is a
    parameter; what is modelled is the filter and de-duplication of the player
    links, the names read from a player URL, the roster filter, the field
    rules of the bio scrape and the `save_player` upsert. */
module Roster {

  import opened Options
  import opened Ascii
  import opened HighSchool
  import opened Normalize
  import opened Players

  // ---------------------------------------------------------------------------
  // _find_player_elements

  const SiteBase: string := "https://www.mlssoccer.com"

  /** A link is kept for de-duplication: a non-empty `href` with "/players/"
      in it that is not the roster index itself. */
  predicate Admitted(href: Option<string>) {
    && Truthy(href)
    && Contains(href.value, "/players/")
    && !EndsWith(href.value, "/players/")
    && !EndsWith(href.value, "/players/index")
    && !Contains(href.value, "/players/index")
  }

  /** A relative link put after the site. */
  function Absolute(href: string): string {
    AbsoluteUrl(SiteBase, href)
  }

  /** The de-duplication key: the link cut at its first "?", trailing "/"
      removed. */
  function Key(href: string): string {
    RStripChar(SplitOn(href, '?')[0], '/')
  }

  /** A key is a front part of its link, without "?" and without a trailing
      "/". */
  lemma KeyShape(href: string)
    ensures var k := Key(href);
      && '?' !in k && (k == [] || k[|k| - 1] != '/')
      && |k| <= |href| && k == href[..|k|]
  {
    var parts := SplitOn(href, '?');
    assert '?' !in parts[0];
  }

  /** The keys of a list of links, under the key function `key` (`Key` in the
      scraper; the lemmas below hold for any). */
  function Keys(links: seq<string>, key: string -> string): set<string>
    decreases |links|
  {
    if links == [] then {} else Keys(links[..|links| - 1], key) + {key(links[|links| - 1])}
  }

  /** A key is among the keys exactly when some link has it. */
  lemma {:induction false} KeysHas(links: seq<string>, key: string -> string, k: string)
    ensures k in Keys(links, key) <==> exists i :: 0 <= i < |links| && key(links[i]) == k
    decreases |links|
  {
    if links != [] {
      var init := links[..|links| - 1];
      KeysHas(init, key, k);
      assert forall i :: 0 <= i < |init| ==> init[i] == links[i];
    }
  }

  /** The admitted links among the first `|hrefs|` anchors, made absolute,
      in page order. */
  function Candidates(hrefs: seq<Option<string>>): (cands: seq<string>)
    ensures |cands| <= |hrefs|
    decreases |hrefs|
  {
    if hrefs == [] then []
    else
      var cands := Candidates(hrefs[..|hrefs| - 1]);
      var h := hrefs[|hrefs| - 1];
      if Admitted(h) then cands + [Absolute(h.value)] else cands
  }

  /** The first link per key, in order: a link is dropped when an earlier
      kept link has its key. */
  function FirstPerKey(links: seq<string>, key: string -> string): (kept: seq<string>)
    ensures |kept| <= |links|
    decreases |links|
  {
    if links == [] then []
    else
      var kept := FirstPerKey(links[..|links| - 1], key);
      var u := links[|links| - 1];
      if key(u) in Keys(kept, key) then kept else kept + [u]
  }

  /** `_find_player_elements`: the `href` of every anchor whose link has
      "/players/" in it, in page order (None when the attribute is missing),
      filtered, made absolute and de-duplicated by key through `seen`. */
  method FindPlayerLinks(hrefs: seq<Option<string>>) returns (links: seq<string>)
    ensures links == FirstPerKey(Candidates(hrefs), Key)
  {
    var seen: set<string> := {};
    links := [];
    for i := 0 to |hrefs|
      invariant links == FirstPerKey(Candidates(hrefs[..i]), Key)
      invariant seen == Keys(links, Key)
    {
      var href := hrefs[i];
      CandidatesStep(hrefs, i);
      if href.None? || href.value == [] || !Contains(href.value, "/players/") {
        continue;
      }
      if EndsWith(href.value, "/players/") || EndsWith(href.value, "/players/index")
         || Contains(href.value, "/players/index") {
        continue;
      }
      var url := href.value;
      if !StartsWith(url, "http") {
        url := SiteBase + url;
      }
      var clean := RStripChar(SplitOn(url, '?')[0], '/');
      FirstPerKeyStep(Candidates(hrefs[..i]), url, Key);
      if clean !in seen {
        KeysSnoc(links, url, Key);
        seen := seen + {clean};
        links := links + [url];
      }
    }
    assert hrefs[..|hrefs|] == hrefs;
  }

  /** One more anchor adds its link to the candidates when it is admitted. */
  lemma CandidatesStep(hrefs: seq<Option<string>>, i: nat)
    requires i < |hrefs|
    ensures Candidates(hrefs[..i + 1])
         == if Admitted(hrefs[i]) then Candidates(hrefs[..i]) + [Absolute(hrefs[i].value)] else Candidates(hrefs[..i])
  {
    assert hrefs[..i + 1][..i] == hrefs[..i];
  }

  /** One more link is kept exactly when no kept link has its key. */
  lemma FirstPerKeyStep(links: seq<string>, u: string, key: string -> string)
    ensures FirstPerKey(links + [u], key)
         == if key(u) in Keys(FirstPerKey(links, key), key) then FirstPerKey(links, key) else FirstPerKey(links, key) + [u]
  {
    assert (links + [u])[..|links|] == links;
  }

  lemma KeysSnoc(links: seq<string>, url: string, key: string -> string)
    ensures Keys(links + [url], key) == Keys(links, key) + {key(url)}
  {
    assert (links + [url])[..|links|] == links;
  }

  /** The candidates are exactly the admitted anchors' links made absolute,
      in page order. */
  lemma {:induction false} CandidatesAdmitted(hrefs: seq<Option<string>>)
    ensures forall c :: c in Candidates(hrefs) <==> exists i :: 0 <= i < |hrefs| && Admitted(hrefs[i]) && c == Absolute(hrefs[i].value)
    decreases |hrefs|
  {
    if hrefs != [] {
      var init := hrefs[..|hrefs| - 1];
      CandidatesAdmitted(init);
      assert forall i :: 0 <= i < |init| ==> init[i] == hrefs[i];
      var h := hrefs[|hrefs| - 1];
      forall c
        ensures c in Candidates(hrefs) <==>
                exists i :: 0 <= i < |hrefs| && Admitted(hrefs[i]) && c == Absolute(hrefs[i].value)
      {
        if Admitted(h) && c == Absolute(h.value) {
          assert Candidates(hrefs) == Candidates(init) + [c];
        }
      }
    }
  }

  /** No two links share a key. */
  predicate DistinctKeys(links: seq<string>, key: string -> string) {
    forall i, j :: 0 <= i < j < |links| ==> key(links[i]) != key(links[j])
  }

  /** No two kept links share a key. */
  lemma {:induction false} FirstPerKeyDistinct(links: seq<string>, key: string -> string)
    ensures DistinctKeys(FirstPerKey(links, key), key)
    decreases |links|
  {
    if links != [] {
      var init := links[..|links| - 1];
      FirstPerKeyDistinct(init, key);
      var kept := FirstPerKey(init, key);
      var u := links[|links| - 1];
      if key(u) !in Keys(kept, key) {
        KeysHas(kept, key, key(u));
        var all := kept + [u];
        assert FirstPerKey(links, key) == all;
        forall i, j | 0 <= i < j < |all|
          ensures key(all[i]) != key(all[j])
        {
          assert all[i] == kept[i];
          if j < |kept| {
            assert all[j] == kept[j];
          }
        }
      }
    }
  }

  /** The key of every link is the key of a kept link. */
  lemma {:induction false} FirstPerKeyCovers(links: seq<string>, key: string -> string)
    ensures forall i :: 0 <= i < |links| ==> key(links[i]) in Keys(FirstPerKey(links, key), key)
    decreases |links|
  {
    if links != [] {
      var init := links[..|links| - 1];
      FirstPerKeyCovers(init, key);
      var kept := FirstPerKey(init, key);
      var u := links[|links| - 1];
      if key(u) !in Keys(kept, key) {
        KeysSnoc(kept, u, key);
      }
      assert forall i :: 0 <= i < |init| ==> init[i] == links[i];
    }
  }

  /** `link` is some link that no earlier link shares the key of. */
  predicate FirstOfKey(links: seq<string>, key: string -> string, link: string) {
    exists i :: 0 <= i < |links| && link == links[i] && forall i' :: 0 <= i' < i ==> key(links[i']) != key(links[i])
  }

  /** A link first of its key stays so when a link is appended. */
  lemma FirstOfKeyExtend(init: seq<string>, u: string, key: string -> string, link: string)
    requires FirstOfKey(init, key, link)
    ensures FirstOfKey(init + [u], key, link)
  {
    var i :| 0 <= i < |init| && link == init[i] && forall i' :: 0 <= i' < i ==> key(init[i']) != key(init[i]);
    var all := init + [u];
    assert all[i] == init[i];
    assert forall i' :: 0 <= i' < i ==> all[i'] == init[i'];
  }

  /** An appended link whose key no earlier link has is first of its key. */
  lemma FirstOfKeyLast(init: seq<string>, u: string, key: string -> string)
    requires forall i :: 0 <= i < |init| ==> key(init[i]) != key(u)
    ensures FirstOfKey(init + [u], key, u)
  {
    var all := init + [u];
    assert all[|init|] == u;
    assert forall i' :: 0 <= i' < |init| ==> all[i'] == init[i'];
  }

  /** Every kept link is a link no earlier link shares the key of: the first
      link per key is the one kept. */
  lemma {:induction false} FirstPerKeyIsFirst(links: seq<string>, key: string -> string)
    ensures forall j :: 0 <= j < |FirstPerKey(links, key)| ==> FirstOfKey(links, key, FirstPerKey(links, key)[j])
    decreases |links|
  {
    if links != [] {
      var init := links[..|links| - 1];
      var u := links[|links| - 1];
      assert links == init + [u];
      FirstPerKeyIsFirst(init, key);
      var kept := FirstPerKey(init, key);
      FirstPerKeyStep(init, u, key);
      forall j | 0 <= j < |kept|
        ensures FirstOfKey(links, key, kept[j])
      {
        FirstOfKeyExtend(init, u, key, kept[j]);
      }
      if key(u) !in Keys(kept, key) {
        FirstPerKeyCovers(init, key);
        FirstOfKeyLast(init, u, key);
        var all := kept + [u];
        forall j | 0 <= j < |all|
          ensures FirstOfKey(links, key, all[j])
        {
          if j < |kept| {
            assert all[j] == kept[j];
          } else {
            assert all[j] == u;
          }
        }
      }
    }
  }

  // ---------------------------------------------------------------------------
  // _extract_player_from_url

  const PlayersPath: string := "/players/"

  /** A character of a name slug: `[^/?]`. */
  predicate SlugChar(c: char) { c != '/' && c != '?' }

  /** `r'/players/([^/\?]+)'` can match at `k`: "/players/" there, followed
      by a slug character. */
  predicate SlugAt(href: string, k: nat) {
    k + |PlayersPath| < |href| && OccursAt(href, PlayersPath, k) && SlugChar(href[k + |PlayersPath|])
  }

  /** Where `re.search` finds the leftmost match, searching from `i`. */
  function SlugStart(href: string, i: nat): (r: Option<nat>)
    requires i <= |href|
    ensures r.Some? ==> i <= r.value && SlugAt(href, r.value)
    ensures r.Some? ==> forall k :: i <= k < r.value ==> !SlugAt(href, k)
    ensures r.None? ==> forall k :: i <= k <= |href| ==> !SlugAt(href, k)
    decreases |href| - i
  {
    if SlugAt(href, i) then Some(i)
    else if i == |href| then None
    else SlugStart(href, i + 1)
  }

  /** Group 1 of the search: the longest run of slug characters after the
      leftmost "/players/" that has one. */
  function Slug(href: string): (r: Option<string>)
    ensures r.Some? ==> r.value != [] && '/' !in r.value && '?' !in r.value
    ensures r.None? <==> forall k :: 0 <= k <= |href| ==> !SlugAt(href, k)
  {
    match SlugStart(href, 0)
    case None => None
    case Some(k) =>
      var rest := href[k + |PlayersPath|..];
      var n := LeadingRun(rest, SlugChar);
      Some(rest[..n])
  }

  /** `name_slug.replace('-', ' ').title().split()`. */
  function NameWords(slug: string): seq<string> {
    SplitWs(Title(ReplaceChar(slug, '-', ' ')))
  }

  /** (first_name, last_name) read from the URL: two or more words give the
      first word and the rest joined by spaces, one word gives a last name
      only, no slug or no word gives neither. */
  function Names(href: string): (Option<string>, Option<string>) {
    match Slug(href)
    case None => (None, None)
    case Some(slug) =>
      var parts := NameWords(slug);
      if |parts| >= 2 then (Some(parts[0]), Some(Join(" ", parts[1..])))
      else if |parts| == 1 then (None, Some(parts[0]))
      else (None, None)
  }

  /** A player dict as the roster scraper builds it; a key never set is None. */
  datatype Scraped = Scraped(
    team: Option<string>,
    season: Option<int>,
    firstName: Option<string>,
    lastName: Option<string>,
    position: Option<string>,
    jerseyNumber: Option<int>,
    headshotUrl: Option<string>,
    bioUrl: Option<string>,
    height: Option<string>,
    weight: Option<int>,
    birthdate: Option<string>,
    birthplace: Option<string>,
    hometownCity: Option<string>,
    hometownState: Option<string>,
    highSchool: Option<string>,
    citizenship: Option<string>)

  /** `_extract_player_from_url`: the team's name, the season and the URL,
      the names read from the URL, and nothing else. */
  function FromUrl(href: string, teamName: string, season: int): (p: Scraped)
    ensures p.team == Some(teamName) && p.season == Some(season) && p.bioUrl == Some(href)
    ensures p.position.None? && p.jerseyNumber.None? && p.headshotUrl.None?
    ensures (p.firstName, p.lastName) == Names(href)
  {
    var (first, last) := Names(href);
    Scraped(Some(teamName), Some(season), first, last, None, None, None, Some(href),
            None, None, None, None, None, None, None, None)
  }

  /** The first word, a space and the last name make up the whole name: the
      words of the slug joined by spaces.  Each name is non-empty, the first
      name has no whitespace, and a first name comes only with a last name. */
  lemma NamesJoin(href: string)
    ensures var (first, last) := Names(href);
      && (first.Some? ==> last.Some? && first.value != [] && forall i :: 0 <= i < |first.value| ==> !IsSpace(first.value[i]))
      && (last.Some? ==>
            && Slug(href).Some? && last.value != []
            && Join(" ", NameWords(Slug(href).value)) == (if first.Some? then first.value + " " + last.value else last.value))
  {
    if Slug(href).Some? {
      var parts := NameWords(Slug(href).value);
      if |parts| >= 2 {
        JoinStartsWithFirst(" ", parts[1..]);
      }
    }
  }

  /** The roster keeps a player exactly when the URL's slug has a word in it. */
  lemma LastNameTruthy(href: string)
    ensures Truthy(Names(href).1) <==> Slug(href).Some? && NameWords(Slug(href).value) != []
  {
    NamesJoin(href);
  }

  /** The search goes past every index that cannot start a match. */
  lemma {:induction false} SlugStartSkips(href: string, i: nat, j: nat)
    requires i <= j <= |href| && SlugAt(href, j)
    requires forall k :: i <= k < j ==> !SlugAt(href, k)
    ensures SlugStart(href, i) == Some(j)
    decreases j - i
  {
    if i < j {
      SlugStartSkips(href, i + 1, j);
    }
  }

  /** A word does not occur where its first or second character is missing. */
  lemma NotOccursAt(s: string, sub: string, k: nat)
    requires 2 <= |sub|
    requires (k < |s| && s[k] != sub[0]) || (k + 1 < |s| && s[k + 1] != sub[1])
    ensures !OccursAt(s, sub, k)
  {
    if k + |sub| <= |s| {
      assert s[k..k + |sub|][0] == s[k] && s[k..k + |sub|][1] == s[k + 1];
    }
  }

  /** No "/players/" begins inside the site's address. */
  lemma SiteHasNoSlug(href: string)
    requires |href| > |SiteBase| && href[..|SiteBase|] == SiteBase
    ensures forall k :: 0 <= k < |SiteBase| ==> !SlugAt(href, k)
  {
    var a := "https:";
    var b := "www.mlssoccer.com";
    assert SiteBase == a + "//" + b;
    assert '/' !in a && '/' !in b;
    forall k | 0 <= k < |SiteBase|
      ensures !SlugAt(href, k)
    {
      assert href[k] == SiteBase[k];
      if k < |a| {
        assert SiteBase[k] == a[k];
      } else if k >= |a| + 2 {
        assert SiteBase[k] == b[k - |a| - 2];
      } else {
        assert href[k + 1] == SiteBase[k + 1];
      }
      NotOccursAt(href, PlayersPath, k);
    }
  }

  /** A player link on the site: its slug is the run of slug characters
      after "/players/". */
  lemma SiteSlug(rest: string, n: nat)
    requires 0 < n <= |rest| && (n == |rest| || !SlugChar(rest[n]))
    requires forall i :: 0 <= i < n ==> SlugChar(rest[i])
    ensures Slug(SiteBase + PlayersPath + rest) == Some(rest[..n])
  {
    var href := SiteBase + PlayersPath + rest;
    assert href[..|SiteBase|] == SiteBase;
    SiteHasNoSlug(href);
    assert href[|SiteBase|..|SiteBase| + |PlayersPath|] == PlayersPath;
    assert href[|SiteBase| + |PlayersPath|] == rest[0];
    SlugStartSkips(href, 0, |SiteBase|);
    assert href[|SiteBase| + |PlayersPath|..] == rest;
    assert LeadingRun(rest, SlugChar) == n;
  }

  /** Words that make up a name slug: non-empty, no whitespace, no "-", "/"
      or "?". */
  predicate NameSlugWords(ws: seq<string>) {
    && Words(ws)
    && forall k :: 0 <= k < |ws| ==> All(ws[k], SlugChar) && '-' !in ws[k]
  }

  /** A player link whose slug is words joined by "-": each word is
      title-cased; the first is the first name when there are two or more,
      and the rest, joined by spaces, is the last name. */
  lemma NamesOfWords(href: string, ws: seq<string>, slug: string, tail: string)
    requires ws != [] && NameSlugWords(ws) && slug == Join("-", ws)
    requires tail == [] || !SlugChar(tail[0])
    requires href == SiteBase + PlayersPath + slug + tail
    ensures Names(href) == if |ws| >= 2 then (Some(TitleEach(ws)[0]), Some(Join(" ", TitleEach(ws)[1..])))
                           else (None, Some(TitleEach(ws)[0]))
  {
    SlugOfWords(ws, tail);
    NameWordsOfWords(ws);
    NamesOfSlug(href, Join("-", ws), TitleEach(ws));
  }

  lemma NamesOfSlug(href: string, slug: string, parts: seq<string>)
    requires Slug(href) == Some(slug) && NameWords(slug) == parts && parts != []
    ensures Names(href) == if |parts| >= 2 then (Some(parts[0]), Some(Join(" ", parts[1..])))
                           else (None, Some(parts[0]))
  {
  }

  /** The slug of such a link is the words joined by "-". */
  lemma SlugOfWords(ws: seq<string>, tail: string)
    requires ws != [] && NameSlugWords(ws)
    requires tail == [] || !SlugChar(tail[0])
    ensures Slug(SiteBase + PlayersPath + Join("-", ws) + tail) == Some(Join("-", ws))
  {
    var slug := Join("-", ws);
    var rest := slug + tail;
    AllJoin("-", ws, SlugChar);
    JoinStartsWithFirst("-", ws);
    assert forall i :: 0 <= i < |slug| ==> rest[i] == slug[i];
    SiteSlug(rest, |slug|);
    assert rest[..|slug|] == slug;
    assert SiteBase + PlayersPath + Join("-", ws) + tail == SiteBase + PlayersPath + rest;
  }

  /** The name words of such a slug are its words title-cased. */
  lemma NameWordsOfWords(ws: seq<string>)
    requires NameSlugWords(ws)
    ensures NameWords(Join("-", ws)) == TitleEach(ws)
  {
    ReplaceSeparator(ws, '-', ' ');
    TitleJoin(ws);
    TitleWords(ws);
    SplitWsJoin(TitleEach(ws));
  }

  /** "john-doe-iii": "John" and "Doe Iii". */
  lemma ThreeWordSlug()
    ensures Names(SiteBase + PlayersPath + "john-doe-iii/") == (Some("John"), Some("Doe Iii"))
  {
    ThreeWordNames();
    TitledExamples();
  }

  lemma ThreeWordNames()
    ensures Names(SiteBase + PlayersPath + "john-doe-iii/") ==
              (Some(Title("john")), Some(Title("doe") + " " + Title("iii")))
  {
    var ws := ["john", "doe", "iii"];
    JoinThree("-", ws, "john-doe-iii");
    assert NameSlugWords(ws);
    NamesOfWords(SiteBase + PlayersPath + "john-doe-iii/", ws, "john-doe-iii", "/");
    JoinTwo(" ", TitleEach(ws)[1..], Title("doe") + " " + Title("iii"));
  }

  /** The words of the examples title-cased. */
  lemma TitledExamples()
    ensures Title("john") == "John" && Title("artur") == "Artur"
    ensures Title("doe") == "Doe" && Title("doe") + " " + Title("iii") == "Doe Iii"
  {
    TitledFirstNames();
    TitleLowerWord("doe");
    TitleLowerWord("iii");
  }

  lemma TitledFirstNames()
    ensures Title("john") == "John" && Title("artur") == "Artur"
  {
    TitleLowerWord("john");
    TitleLowerWord("artur");
  }

  lemma JoinTwo(sep: string, xs: seq<string>, r: string)
    requires |xs| == 2 && r == xs[0] + sep + xs[1]
    ensures Join(sep, xs) == r
  {
    assert xs[1..] == [xs[1]];
  }

  lemma JoinThree(sep: string, xs: seq<string>, r: string)
    requires |xs| == 3 && r == xs[0] + sep + xs[1] + sep + xs[2]
    ensures Join(sep, xs) == r
  {
    JoinTwo(sep, xs[1..], xs[1] + sep + xs[2]);
  }

  /** A single word is a last name only. */
  lemma MononymSlug()
    ensures Names(SiteBase + PlayersPath + "artur/") == (None, Some("Artur"))
  {
    MononymNames();
    TitledExamples();
  }

  lemma MononymNames()
    ensures Names(SiteBase + PlayersPath + "artur/") == (None, Some(Title("artur")))
  {
    var ws := ["artur"];
    assert NameSlugWords(ws);
    NamesOfWords(SiteBase + PlayersPath + "artur/", ws, "artur", "/");
  }

  /** The query string is not part of the slug: a link with one gives the
      same names as the link without it. */
  lemma QueryIgnored(w1: string, w2: string, query: string)
    requires NameSlugWords([w1, w2])
    ensures Names(SiteBase + PlayersPath + (w1 + "-" + w2) + ("/?" + query))
         == Names(SiteBase + PlayersPath + (w1 + "-" + w2) + "/")
         == (Some(Title(w1)), Some(Title(w2)))
  {
    TwoWordNames(w1, w2, "/?" + query, SiteBase + PlayersPath + (w1 + "-" + w2) + ("/?" + query));
    TwoWordNames(w1, w2, "/", SiteBase + PlayersPath + (w1 + "-" + w2) + "/");
  }

  /** A link whose slug is two words gives them as first and last name. */
  lemma TwoWordNames(w1: string, w2: string, tail: string, href: string)
    requires NameSlugWords([w1, w2])
    requires tail == [] || !SlugChar(tail[0])
    requires href == SiteBase + PlayersPath + (w1 + "-" + w2) + tail
    ensures Names(href) == (Some(Title(w1)), Some(Title(w2)))
  {
    var ws := [w1, w2];
    JoinTwo("-", ws, w1 + "-" + w2);
    NamesOfWords(href, ws, w1 + "-" + w2, tail);
    var ts := TitleEach(ws);
    assert ts[0] == Title(w1) && ts[1..] == [Title(w2)];
    assert Join(" ", ts[1..]) == Title(w2);
  }

  /** `/players//` has no slug, so neither name is set. */
  lemma EmptySlug()
    ensures Names(SiteBase + PlayersPath + "/") == (None, None)
  {
    var href := SiteBase + PlayersPath + "/";
    assert href[..|SiteBase|] == SiteBase;
    SiteHasNoSlug(href);
    assert !SlugAt(href, |SiteBase|) by {
      assert href[|SiteBase| + |PlayersPath|] == '/';
    }
  }

  // ---------------------------------------------------------------------------
  // scrape_team_roster

  /** `_extract_player_from_url` for one team and season. */
  function Extractor(teamName: string, season: int): string -> Scraped {
    href => FromUrl(href, teamName, season)
  }

  /** The players kept from the links, in order: the dicts `extract` makes
      of them that have a last name. */
  function RosterOf(links: seq<string>, extract: string -> Scraped): (ps: seq<Scraped>)
    ensures |ps| <= |links|
    decreases |links|
  {
    if links == [] then []
    else
      var ps := RosterOf(links[..|links| - 1], extract);
      var p := extract(links[|links| - 1]);
      if Truthy(p.lastName) then ps + [p] else ps
  }

  /** `scrape_team_roster`: the roster page's anchors (None when loading the
      page failed), their links filtered and de-duplicated, each made into a
      player dict, and those without a last name dropped. */
  method ScrapeTeamRoster(page: Option<seq<Option<string>>>, teamName: string, season: int)
    returns (players: seq<Scraped>)
    ensures page.None? ==> players == []
    ensures page.Some? ==> players == RosterOf(FirstPerKey(Candidates(page.value), Key), Extractor(teamName, season))
  {
    players := [];
    if page.None? {
      return;
    }
    var playerData := FindPlayerLinks(page.value);
    if playerData == [] {
      return;
    }
    players := PlayersFromLinks(playerData, teamName, season);
  }

  /** The loop of `scrape_team_roster` over the player links. */
  method PlayersFromLinks(playerData: seq<string>, teamName: string, season: int)
    returns (players: seq<Scraped>)
    ensures players == RosterOf(playerData, Extractor(teamName, season))
  {
    players := [];
    ghost var extract := Extractor(teamName, season);
    for i := 0 to |playerData|
      invariant players == RosterOf(playerData[..i], extract)
    {
      assert playerData[..i + 1][..i] == playerData[..i];
      var player := FromUrl(playerData[i], teamName, season);
      assert player == extract(playerData[i]);
      if Truthy(player.lastName) {
        players := players + [player];
      }
    }
    assert playerData[..|playerData|] == playerData;
  }

  /** A player is kept exactly when it is the dict of one of the links and
      has a last name. */
  lemma {:induction false} RosterOfKeeps(links: seq<string>, extract: string -> Scraped)
    ensures forall p :: p in RosterOf(links, extract) <==>
              exists i :: 0 <= i < |links| && p == extract(links[i]) && Truthy(p.lastName)
    decreases |links|
  {
    if links != [] {
      var init := links[..|links| - 1];
      RosterOfKeeps(init, extract);
      assert forall i :: 0 <= i < |init| ==> init[i] == links[i];
      var last := extract(links[|links| - 1]);
      forall p
        ensures p in RosterOf(links, extract) <==>
                exists i :: 0 <= i < |links| && p == extract(links[i]) && Truthy(p.lastName)
      {
        if p == last && Truthy(p.lastName) {
          assert RosterOf(links, extract) == RosterOf(init, extract) + [p];
        }
      }
    }
  }

  // ---------------------------------------------------------------------------
  // scrape_player_bio

  /** What the regular expressions find on a player's MLS bio page: group 1
      of the position, height and weight patterns (the weight already read as
      a number), group 1 of the first match of each birthdate pattern and of
      each birthplace pattern, in declared order, and the `src` of the first
      headshot image. */
  datatype BioCaptures = BioCaptures(
    position: Option<string>,
    height: Option<string>,
    weight: Option<int>,
    dobs: seq<Option<string>>,
    birthplaces: seq<Option<string>>,
    headshot: Option<string>)

  /** The browser, as the bio scrape sees it: the captures on the MLS bio page
      at a URL (None when loading it failed), and the club site's birthplace
      capture at a URL (None when loading it failed, `Some(None)` when the page
      has no birthplace). */
  datatype BioSite = BioSite(
    bio: string -> Option<BioCaptures>,
    club: string -> Option<Option<string>>)

  /** The words at which an MLS birthplace is cut. */
  const BioStops: seq<string> := ["Height", "Weight", "Position"]

  /** Position, height, weight and birthdate from the MLS page: each found
      value is written (stripped), the birthdate from the first pattern that
      matches; otherwise the field is left. */
  function PageFields(p: Scraped, c: BioCaptures): Scraped {
    var dob := FirstSome(c.dobs);
    p.(position := if c.position.Some? then Some(Strip(c.position.value)) else p.position,
       height := if c.height.Some? then Some(Strip(c.height.value)) else p.height,
       weight := if c.weight.Some? then c.weight else p.weight,
       birthdate := if dob.Some? then Some(Strip(dob.value)) else p.birthdate)
  }

  /** A non-empty headshot `src` is written. */
  function Headshot(p: Scraped, src: Option<string>): Scraped {
    if Truthy(src) then p.(headshotUrl := src) else p
  }

  /** A non-empty MLS birthplace fills `birthplace` when it is empty, and then
      the parsed city and state fill the hometown columns that are empty. */
  function FillBirthplace(p: Scraped, bp: string, hometown: (Option<string>, Option<string>)): Scraped {
    if bp != [] && !Truthy(p.birthplace) then
      p.(birthplace := Some(bp),
         hometownCity := if Truthy(hometown.0) && !Truthy(p.hometownCity) then hometown.0 else p.hometownCity,
         hometownState := if Truthy(hometown.1) && !Truthy(p.hometownState) then hometown.1 else p.hometownState)
    else p
  }

  /** The birthplace patterns: only the first one that matches is used, even
      when its cleaned text is empty or the field is already set. */
  function MlsBirthplace(p: Scraped, birthplaces: seq<Option<string>>): Scraped {
    match FirstSome(birthplaces)
    case None => p
    case Some(capture) =>
      var bp := CleanField(capture, BioStops);
      FillBirthplace(p, bp, ParseHometown(Some(bp)))
  }

  /** How `None` shows in an f-string. */
  function Shown(name: Option<string>): string {
    if name.Some? then name.value else "None"
  }

  /** The club-site slug: "first-last" lower-cased, spaces made "-".  A name
      that is None shows as "None", so a mononym's slug begins "none-". */
  function ClubSlug(p: Scraped): string {
    ReplaceChar(Lower(Shown(p.firstName) + "-" + Shown(p.lastName)), ' ', '-')
  }

  function ClubUrl(domain: string, p: Scraped): string {
    "https://www." + domain + "/players/" + ClubSlug(p) + "/"
  }

  /** The club site's birthplace, stripped, overwrites `birthplace` even when
      empty, and the parsed city and state overwrite the hometown columns
      when they are non-empty. */
  function Overwrite(p: Scraped, bp: string, hometown: (Option<string>, Option<string>)): Scraped {
    p.(birthplace := Some(bp),
       hometownCity := if Truthy(hometown.0) then hometown.0 else p.hometownCity,
       hometownState := if Truthy(hometown.1) then hometown.1 else p.hometownState)
  }

  /** The club-site step, run when the team has a domain. */
  function ClubStep(p: Scraped, domain: Option<string>, club: string -> Option<Option<string>>): Scraped {
    if !Truthy(domain) then p
    else
      match club(ClubUrl(domain.value, p))
      case Some(Some(capture)) =>
        var bp := Strip(capture);
        Overwrite(p, bp, ParseHometown(Some(bp)))
      case _ => p
  }

  /** The player after the MLS page: its fields, its birthplace and its
      headshot, in that order. */
  function MlsPage(p: Scraped, c: BioCaptures): Scraped {
    Headshot(MlsBirthplace(PageFields(p, c), c.birthplaces), c.headshot)
  }

  /** The dict `scrape_player_bio` returns. */
  function Bio(p: Scraped, site: BioSite, domain: Option<string>): Scraped {
    if !Truthy(p.bioUrl) then p
    else
      match site.bio(p.bioUrl.value)
      case None => p
      case Some(c) => ClubStep(MlsPage(p, c), domain, site.club)
  }

  /** `scrape_player_bio`: nothing without a bio URL or when the page does not
      load; otherwise the MLS page's fields, its first birthplace match, and
      then the club site's birthplace when the team has a domain. */
  method ScrapePlayerBio(p: Scraped, site: BioSite, domain: Option<string>) returns (r: Scraped)
    ensures r == Bio(p, site, domain)
  {
    r := p;
    if !Truthy(p.bioUrl) {
      return;
    }
    var page := site.bio(p.bioUrl.value);
    if page.None? {
      return;
    }
    var c := page.value;
    r := ReadBioPage(r, c);
    r := ReadClubPage(r, domain, site.club);
  }

  /** The MLS page: position, height, weight, the first birthdate match, the
      first birthplace match and the headshot. */
  method ReadBioPage(p: Scraped, c: BioCaptures) returns (r: Scraped)
    ensures r == MlsPage(p, c)
  {
    r := ReadPageFields(p, c);
    r := ReadBirthplace(r, c.birthplaces);
    if Truthy(c.headshot) {
      r := r.(headshotUrl := c.headshot);
    }
  }

  /** Position, height, weight, and the birthdate patterns tried in order
      until one matches. */
  method ReadPageFields(p: Scraped, c: BioCaptures) returns (r: Scraped)
    ensures r == PageFields(p, c)
  {
    r := p;
    if c.position.Some? {
      r := r.(position := Some(Strip(c.position.value)));
    }
    if c.height.Some? {
      r := r.(height := Some(Strip(c.height.value)));
    }
    if c.weight.Some? {
      r := r.(weight := c.weight);
    }
    ghost var before := r;
    for k := 0 to |c.dobs|
      invariant forall j :: 0 <= j < k ==> c.dobs[j].None?
      invariant r == before
    {
      if c.dobs[k].Some? {
        r := r.(birthdate := Some(Strip(c.dobs[k].value)));
        FirstSomeAt(c.dobs, k);
        return;
      }
    }
    assert FirstSome(c.dobs).None?;
  }

  /** The birthplace patterns tried in order until one matches; that match,
      cleaned, is the only one used. */
  method ReadBirthplace(p: Scraped, birthplaces: seq<Option<string>>) returns (r: Scraped)
    ensures r == MlsBirthplace(p, birthplaces)
  {
    r := p;
    for k := 0 to |birthplaces|
      invariant forall j :: 0 <= j < k ==> birthplaces[j].None?
      invariant r == p
    {
      if birthplaces[k].Some? {
        var birthplace := Strip(birthplaces[k].value);
        birthplace := Strip(FirstPiece(birthplace, BioStops));
        FirstSomeAt(birthplaces, k);
        r := FillFromBioPage(r, birthplace);
        return;
      }
    }
    assert FirstSome(birthplaces).None?;
  }

  /** The MLS birthplace written where the player has none. */
  method FillFromBioPage(p: Scraped, birthplace: string) returns (r: Scraped)
    ensures r == FillBirthplace(p, birthplace, ParseHometown(Some(birthplace)))
  {
    r := p;
    if birthplace != [] && !Truthy(p.birthplace) {
      r := r.(birthplace := Some(birthplace));
      var (city, state) := ParseHometown(Some(birthplace));
      if Truthy(city) && !Truthy(r.hometownCity) {
        r := r.(hometownCity := city);
      }
      if Truthy(state) && !Truthy(r.hometownState) {
        r := r.(hometownState := state);
      }
    }
  }

  /** The club site, when the team has a domain: its birthplace overwrites. */
  method ReadClubPage(p: Scraped, domain: Option<string>, club: string -> Option<Option<string>>)
    returns (r: Scraped)
    ensures r == ClubStep(p, domain, club)
  {
    r := p;
    if Truthy(domain) {
      var nameSlug := ReplaceChar(Lower(Shown(p.firstName) + "-" + Shown(p.lastName)), ' ', '-');
      var clubUrl := "https://www." + domain.value + "/players/" + nameSlug + "/";
      var found := club(clubUrl);
      if found.Some? && found.value.Some? {
        var birthplace := Strip(found.value.value);
        r := OverwriteFromClub(r, birthplace);
      }
    }
  }

  /** The club birthplace written over the player's, and its city and state
      over the hometown where they are non-empty. */
  method OverwriteFromClub(p: Scraped, birthplace: string) returns (r: Scraped)
    ensures r == Overwrite(p, birthplace, ParseHometown(Some(birthplace)))
  {
    r := p.(birthplace := Some(birthplace));
    var (city, state) := ParseHometown(Some(birthplace));
    if Truthy(city) {
      r := r.(hometownCity := city);
    }
    if Truthy(state) {
      r := r.(hometownState := state);
    }
  }

  /** The columns a bio scrape never writes. */
  predicate SameIdentity(a: Scraped, b: Scraped) {
    && a.team == b.team && a.season == b.season
    && a.firstName == b.firstName && a.lastName == b.lastName
    && a.jerseyNumber == b.jerseyNumber && a.bioUrl == b.bioUrl
    && a.highSchool == b.highSchool && a.citizenship == b.citizenship
  }

  /** The bio scrape keeps the team, season, names, jersey number, bio URL,
      high school and citizenship, and returns the player untouched when there
      is no bio URL or the page does not load. */
  lemma BioFrame(p: Scraped, site: BioSite, domain: Option<string>)
    ensures SameIdentity(Bio(p, site, domain), p)
    ensures !Truthy(p.bioUrl) || site.bio(p.bioUrl.value).None? ==> Bio(p, site, domain) == p
  {
    if Truthy(p.bioUrl) && site.bio(p.bioUrl.value).Some? {
      var c := site.bio(p.bioUrl.value).value;
      MlsPageIdentity(p, c);
      ClubStepIdentity(MlsPage(p, c), domain, site.club);
    }
  }

  /** The MLS page writes none of the identity fields. */
  lemma MlsPageIdentity(p: Scraped, c: BioCaptures)
    ensures SameIdentity(MlsPage(p, c), p)
  {
    var q := PageFields(p, c);
    match FirstSome(c.birthplaces)
    case None =>
    case Some(capture) =>
      var bp := CleanField(capture, BioStops);
      FillKeepsIdentity(q, bp, ParseHometown(Some(bp)));
  }

  /** Filling the birthplace writes none of the identity fields. */
  lemma FillKeepsIdentity(p: Scraped, bp: string, hometown: (Option<string>, Option<string>))
    ensures SameIdentity(FillBirthplace(p, bp, hometown), p)
  {
  }

  /** The club-site step writes none of the identity fields. */
  lemma ClubStepIdentity(p: Scraped, domain: Option<string>, club: string -> Option<Option<string>>)
    ensures SameIdentity(ClubStep(p, domain, club), p)
  {
    if Truthy(domain) {
      match club(ClubUrl(domain.value, p))
      case Some(Some(capture)) =>
        var bp := Strip(capture);
        OverwriteKeepsIdentity(p, bp, ParseHometown(Some(bp)));
      case _ =>
    }
  }

  /** Overwriting the birthplace writes none of the identity fields. */
  lemma OverwriteKeepsIdentity(p: Scraped, bp: string, hometown: (Option<string>, Option<string>))
    ensures SameIdentity(Overwrite(p, bp, hometown), p)
  {
  }

  /** Birthplace patterns after the first one that matches are never
      consulted: whatever follows it, the result is the same. */
  lemma MlsBirthplaceFirstMatch(p: Scraped, birthplaces: seq<Option<string>>, k: nat, more: seq<Option<string>>)
    requires k < |birthplaces| && birthplaces[k].Some?
    requires forall j :: 0 <= j < k ==> birthplaces[j].None?
    ensures MlsBirthplace(p, birthplaces[..k + 1] + more) == MlsBirthplace(p, birthplaces)
  {
    FirstSomeAt(birthplaces, k);
    FirstSomeAt(birthplaces[..k + 1] + more, k);
  }

  /** What `FillBirthplace` writes, over any parsed hometown: nothing but the
      birthplace and hometown columns, nothing at all when a birthplace is
      already set or the new one is empty, and a hometown column only when that
      column was empty and the birthplace was written with it. */
  predicate FillsEmpty(p: Scraped, q: Scraped, bp: string) {
    && q == p.(birthplace := q.birthplace, hometownCity := q.hometownCity, hometownState := q.hometownState)
    && (Truthy(p.birthplace) || bp == [] ==> q == p)
    && (q.birthplace != p.birthplace ==> !Truthy(p.birthplace) && q.birthplace == Some(bp) && bp != [])
    && (q.hometownCity != p.hometownCity ==>
          !Truthy(p.hometownCity) && Truthy(q.hometownCity) && q.birthplace != p.birthplace)
    && (q.hometownState != p.hometownState ==>
          !Truthy(p.hometownState) && Truthy(q.hometownState) && q.birthplace != p.birthplace)
  }

  lemma FillBirthplaceFillsEmpty(p: Scraped, bp: string, hometown: (Option<string>, Option<string>))
    ensures FillsEmpty(p, FillBirthplace(p, bp, hometown), bp)
  {
  }

  /** The MLS birthplace only fills what is empty, and what it writes is the
      first match cleaned (see `CleanBirthplace`). */
  lemma MlsBirthplaceFillsEmpty(p: Scraped, birthplaces: seq<Option<string>>)
    ensures var q := MlsBirthplace(p, birthplaces);
      && (FirstSome(birthplaces).None? ==> q == p)
      && (FirstSome(birthplaces).Some? ==> FillsEmpty(p, q, CleanField(FirstSome(birthplaces).value, BioStops)))
  {
    var found := FirstSome(birthplaces);
    if found.Some? {
      var bp := CleanField(found.value, BioStops);
      FillBirthplaceFillsEmpty(p, bp, ParseHometown(Some(bp)));
    }
  }

  /** A cleaned MLS birthplace has no surrounding whitespace, no run of two
      whitespace characters, and none of "Height", "Weight" and "Position". */
  lemma CleanBirthplace(capture: string)
    ensures var bp := CleanField(capture, BioStops);
      && (bp == [] || (!IsSpace(bp[0]) && !IsSpace(bp[|bp| - 1])))
      && SingleSpaced(bp)
      && !Contains(bp, "Height") && !Contains(bp, "Weight") && !Contains(bp, "Position")
  {
    CleanFieldShape(capture, BioStops);
    assert BioStops[0] == "Height" && BioStops[1] == "Weight" && BioStops[2] == "Position";
  }

  /** The club slug has no spaces and is the two names as shown, joined by
      "-"; a missing first name shows as "none". */
  lemma ClubSlugShape(p: Scraped)
    ensures ' ' !in ClubSlug(p)
    ensures |ClubSlug(p)| == |Shown(p.firstName)| + 1 + |Shown(p.lastName)|
    ensures ClubSlug(p)[|Shown(p.firstName)|] == '-'
    ensures p.firstName.None? ==> ClubSlug(p)[..5] == "none-"
  {
    var s := Shown(p.firstName) + "-" + Shown(p.lastName);
    assert s[|Shown(p.firstName)|] == '-';
    if p.firstName.None? {
      assert s[..4] == "None";
    }
  }

  /** The club URL depends only on the player's names, which the MLS page
      leaves alone: it is the URL built before the page was read. */
  lemma ClubUrlBeforePage(p: Scraped, c: BioCaptures, domain: string)
    ensures ClubUrl(domain, MlsPage(p, c)) == ClubUrl(domain, p)
  {
    var q := MlsPage(p, c);
    assert q.firstName == p.firstName && q.lastName == p.lastName;
  }

  /** When the club site gives a birthplace, it is the one the scrape returns,
      stripped, whatever the MLS page said, and its parsed city and state
      replace the hometown where non-empty. */
  lemma ClubBirthplaceWins(p: Scraped, site: BioSite, domain: Option<string>, c: BioCaptures, capture: string)
    requires Truthy(p.bioUrl) && site.bio(p.bioUrl.value) == Some(c)
    requires Truthy(domain) && site.club(ClubUrl(domain.value, p)) == Some(Some(capture))
    ensures var r := Bio(p, site, domain);
      var h := ParseHometown(Some(Strip(capture)));
      && r.birthplace == Some(Strip(capture))
      && (Truthy(h.0) ==> r.hometownCity == h.0)
      && (Truthy(h.1) ==> r.hometownState == h.1)
  {
    ClubUrlBeforePage(p, c, domain.value);
    ClubStepWins(MlsPage(p, c), domain.value, site.club, capture);
  }

  /** The club step with a birthplace found is the overwrite with it. */
  lemma ClubStepWins(q: Scraped, domain: string, club: string -> Option<Option<string>>, capture: string)
    requires domain != [] && club(ClubUrl(domain, q)) == Some(Some(capture))
    ensures ClubStep(q, Some(domain), club) == Overwrite(q, Strip(capture), ParseHometown(Some(Strip(capture))))
  {
  }

  /** Without a domain, or when the club page fails or shows no birthplace,
      the scrape returns what the MLS page gave. */
  lemma NoClubBirthplace(p: Scraped, site: BioSite, domain: Option<string>, c: BioCaptures)
    requires Truthy(p.bioUrl) && site.bio(p.bioUrl.value) == Some(c)
    requires !Truthy(domain) || site.club(ClubUrl(domain.value, p)).None? || site.club(ClubUrl(domain.value, p)) == Some(None)
    ensures Bio(p, site, domain) == MlsPage(p, c)
  {
    if Truthy(domain) {
      ClubUrlBeforePage(p, c, domain.value);
    }
  }

  // ---------------------------------------------------------------------------
  // save_player

  /** The columns of `UNIQUE(team, season, first_name, last_name)`. */
  datatype PlayerKey = PlayerKey(team: Option<string>, season: Option<int>,
                                 firstName: Option<string>, lastName: Option<string>)

  function KeyOf(row: PlayerRow): PlayerKey {
    PlayerKey(row.team, row.season, row.firstName, row.lastName)
  }

  function IncomingKey(p: Scraped): PlayerKey {
    PlayerKey(p.team, p.season, p.firstName, p.lastName)
  }

  /** No key column is NULL. */
  predicate Complete(k: PlayerKey) {
    k.team.Some? && k.season.Some? && k.firstName.Some? && k.lastName.Some?
  }

  /** How SQLite's UNIQUE compares two keys: a NULL equals nothing, not even
      another NULL, so only complete keys can clash. */
  predicate Clash(a: PlayerKey, b: PlayerKey) {
    a == b && Complete(a)
  }

  /** The UNIQUE constraint: no two rows clash. */
  predicate UniqueKeys(t: Table) {
    forall i, j :: i in t && j in t && i != j ==> !Clash(KeyOf(t[i]), KeyOf(t[j]))
  }

  /** The row the INSERT adds: the sixteen listed columns from the player,
      `created_at` by its default `created`, everything else NULL (the
      birthplace and the high-school location and source among them). */
  function Inserted(p: Scraped, now: string, created: string): PlayerRow {
    PlayerRow(p.team, p.season, p.firstName, p.lastName, p.hometownCity, p.hometownState,
              p.highSchool, None, None, None, None, p.position, p.jerseyNumber, p.height,
              p.weight, p.birthdate, None, p.citizenship, p.headshotUrl, p.bioUrl,
              Some(created), Some(now))
  }

  /** The DO UPDATE SET clause: twelve columns take the incoming value, NULL
      included. */
  function Upserted(row: PlayerRow, p: Scraped, now: string): PlayerRow {
    row.(hometownCity := p.hometownCity, hometownState := p.hometownState,
         highSchool := p.highSchool, position := p.position, jerseyNumber := p.jerseyNumber,
         height := p.height, weight := p.weight, birthdate := p.birthdate,
         citizenship := p.citizenship, headshotUrl := p.headshotUrl, bioUrl := p.bioUrl,
         updatedAt := Some(now))
  }

  /** `save_player` as written: the INSERT ... ON CONFLICT statement, where
      `now` is `datetime.now().isoformat()`, `created` the CURRENT_TIMESTAMP
      default and `newId` the id AUTOINCREMENT picks.  A row that clashes with
      the incoming key is updated; when none does, a row is added. */
  function SavePlayer(t: Table, p: Scraped, now: string, created: string, newId: nat): (u: Table)
    requires newId !in t
    ensures t.Keys <= u.Keys <= t.Keys + {newId}
  {
    var key := IncomingKey(p);
    if exists i :: i in t && Clash(KeyOf(t[i]), key) then
      map i | i in t :: if Clash(KeyOf(t[i]), key) then Upserted(t[i], p, now) else t[i]
    else
      t[newId := Inserted(p, now, created)]
  }

  /** The columns the upsert never writes on a conflict. */
  predicate KeptOnConflict(row: PlayerRow, u: PlayerRow) {
    && KeyOf(u) == KeyOf(row)
    && u.birthplace == row.birthplace
    && u.highSchoolCity == row.highSchoolCity && u.highSchoolState == row.highSchoolState
    && u.highSchoolSourceUrl == row.highSchoolSourceUrl && u.highSchoolSourceName == row.highSchoolSourceName
    && u.createdAt == row.createdAt
  }

  /** The columns the upsert takes from the player, NULL included. */
  predicate TakesIncoming(u: PlayerRow, p: Scraped, now: string) {
    && u.hometownCity == p.hometownCity && u.hometownState == p.hometownState
    && u.highSchool == p.highSchool && u.position == p.position
    && u.jerseyNumber == p.jerseyNumber && u.height == p.height && u.weight == p.weight
    && u.birthdate == p.birthdate && u.citizenship == p.citizenship
    && u.headshotUrl == p.headshotUrl && u.bioUrl == p.bioUrl
    && u.updatedAt == Some(now)
  }

  /** On a conflict: no row is added, the clashing row takes the incoming
      values of the twelve SET columns and keeps its key, birthplace,
      high-school location and source and creation time, and every other row
      is untouched. */
  lemma SavePlayerConflict(t: Table, p: Scraped, now: string, created: string, newId: nat, i: nat)
    requires newId !in t && i in t && Clash(KeyOf(t[i]), IncomingKey(p))
    ensures var u := SavePlayer(t, p, now, created, newId);
      && u.Keys == t.Keys
      && TakesIncoming(u[i], p, now) && KeptOnConflict(t[i], u[i])
      && forall j :: j in t && !Clash(KeyOf(t[j]), IncomingKey(p)) ==> u[j] == t[j]
  {
  }

  /** Without a conflict the player is added as a new row at `newId`, with
      no birthplace and no high-school location or source, and nothing else
      changes. */
  lemma SavePlayerInsert(t: Table, p: Scraped, now: string, created: string, newId: nat)
    requires newId !in t && forall i :: i in t ==> !Clash(KeyOf(t[i]), IncomingKey(p))
    ensures var u := SavePlayer(t, p, now, created, newId);
      && u.Keys == t.Keys + {newId}
      && (forall j :: j in t ==> u[j] == t[j])
      && KeyOf(u[newId]) == IncomingKey(p) && TakesIncoming(u[newId], p, now)
      && u[newId].birthplace.None? && u[newId].highSchoolCity.None? && u[newId].highSchoolState.None?
      && u[newId].highSchoolSourceUrl.None? && u[newId].highSchoolSourceName.None?
      && u[newId].createdAt == Some(created)
  {
  }

  /** The upsert keeps the UNIQUE constraint. */
  lemma SavePlayerUnique(t: Table, p: Scraped, now: string, created: string, newId: nat)
    requires newId !in t && UniqueKeys(t)
    ensures UniqueKeys(SavePlayer(t, p, now, created, newId))
  {
    var u := SavePlayer(t, p, now, created, newId);
    var key := IncomingKey(p);
    if !exists i :: i in t && Clash(KeyOf(t[i]), key) {
      forall i, j | i in u && j in u && i != j
        ensures !Clash(KeyOf(u[i]), KeyOf(u[j]))
      {
        if i != newId && j != newId {
          assert u[i] == t[i] && u[j] == t[j];
        }
      }
    } else {
      forall i | i in t
        ensures KeyOf(u[i]) == KeyOf(t[i])
      {
      }
    }
  }

  /** With a complete key, the table holds exactly one row of that key after
      the save. */
  lemma SavePlayerOneRow(t: Table, p: Scraped, now: string, created: string, newId: nat)
    requires newId !in t && UniqueKeys(t) && Complete(IncomingKey(p))
    ensures var u := SavePlayer(t, p, now, created, newId);
      exists i :: i in u && KeyOf(u[i]) == IncomingKey(p) &&
        forall j :: j in u && KeyOf(u[j]) == IncomingKey(p) ==> j == i
  {
    var u := SavePlayer(t, p, now, created, newId);
    var key := IncomingKey(p);
    SavePlayerUnique(t, p, now, created, newId);
    var i;
    if exists k :: k in t && Clash(KeyOf(t[k]), key) {
      i :| i in t && Clash(KeyOf(t[i]), key);
      SavePlayerConflict(t, p, now, created, newId, i);
    } else {
      i := newId;
      SavePlayerInsert(t, p, now, created, newId);
    }
    assert i in u && KeyOf(u[i]) == key;
    forall j | j in u && KeyOf(u[j]) == key
      ensures j == i
    {
      if j != i {
        assert Clash(KeyOf(u[i]), KeyOf(u[j]));
      }
    }
  }

  /** Saving a player with a complete key a second time, at the same moment,
      changes nothing more. */
  lemma SavePlayerTwice(t: Table, p: Scraped, now: string, created: string, newId: nat, newId2: nat)
    requires newId !in t && Complete(IncomingKey(p))
    requires newId2 !in SavePlayer(t, p, now, created, newId)
    ensures var u := SavePlayer(t, p, now, created, newId);
      SavePlayer(u, p, now, created, newId2) == u
  {
    var u := SavePlayer(t, p, now, created, newId);
    var key := IncomingKey(p);
    if exists i :: i in t && Clash(KeyOf(t[i]), key) {
      var i :| i in t && Clash(KeyOf(t[i]), key);
      SavePlayerConflict(t, p, now, created, newId, i);
      assert Clash(KeyOf(u[i]), key);
    } else {
      SavePlayerInsert(t, p, now, created, newId);
      assert Clash(KeyOf(u[newId]), key);
    }
    var v := SavePlayer(u, p, now, created, newId2);
    assert v.Keys == u.Keys;
    forall j | j in u
      ensures v[j] == u[j]
    {
    }
  }

  /** A player saved under a NULL first name, as a mononym's URL gives
      (`MononymSlug`), clashes with no row and is added again on every save:
      two saves leave two rows with the same name, team and season. */
  lemma MononymSavedTwice(t: Table, p: Scraped, now: string, created: string, newId: nat, newId2: nat)
    requires p.firstName.None? && newId !in t
    requires newId2 !in SavePlayer(t, p, now, created, newId)
    ensures var v := SavePlayer(SavePlayer(t, p, now, created, newId), p, now, created, newId2);
      && newId in v && newId2 in v && newId != newId2
      && KeyOf(v[newId]) == IncomingKey(p) && KeyOf(v[newId2]) == IncomingKey(p)
  {
    var u := SavePlayer(t, p, now, created, newId);
    SavePlayerInsert(t, p, now, created, newId);
    SavePlayerInsert(u, p, now, created, newId2);
  }

  /** No two rows have the same key, NULLs compared as equal values. */
  predicate NoDuplicateKeys(t: Table) {
    forall i, j :: i in t && j in t && i != j ==> KeyOf(t[i]) != KeyOf(t[j])
  }

  /** The upsert with the key compared NULL-safely (as SQL's `IS` does): the
      row with the incoming key is updated, NULL key columns included; only
      when there is none is a row added. */
  function SavePlayerNullSafe(t: Table, p: Scraped, now: string, created: string, newId: nat): (u: Table)
    requires newId !in t
    ensures t.Keys <= u.Keys <= t.Keys + {newId}
  {
    var key := IncomingKey(p);
    if exists i :: i in t && KeyOf(t[i]) == key then
      map i | i in t :: if KeyOf(t[i]) == key then Upserted(t[i], p, now) else t[i]
    else
      t[newId := Inserted(p, now, created)]
  }

  /** For a complete key the NULL-safe upsert is the statement as written. */
  lemma NullSafeAgrees(t: Table, p: Scraped, now: string, created: string, newId: nat)
    requires newId !in t && Complete(IncomingKey(p))
    ensures SavePlayerNullSafe(t, p, now, created, newId) == SavePlayer(t, p, now, created, newId)
  {
    var key := IncomingKey(p);
    assert forall i :: i in t ==> (Clash(KeyOf(t[i]), key) <==> KeyOf(t[i]) == key);
  }

  /** The NULL-safe upsert keeps one row per key. */
  lemma NullSafeDistinct(t: Table, p: Scraped, now: string, created: string, newId: nat)
    requires newId !in t && NoDuplicateKeys(t)
    ensures NoDuplicateKeys(SavePlayerNullSafe(t, p, now, created, newId))
  {
    var u := SavePlayerNullSafe(t, p, now, created, newId);
    if exists k :: k in t && KeyOf(t[k]) == IncomingKey(p) {
      assert forall k :: k in t ==> KeyOf(u[k]) == KeyOf(t[k]);
    } else {
      assert forall k :: k in t ==> u[k] == t[k];
    }
  }

  /** After a NULL-safe save exactly one row has the incoming key, mononyms
      included. */
  lemma NullSafeOneRow(t: Table, p: Scraped, now: string, created: string, newId: nat)
    requires newId !in t && NoDuplicateKeys(t)
    ensures var u := SavePlayerNullSafe(t, p, now, created, newId);
      exists i :: i in u && KeyOf(u[i]) == IncomingKey(p) &&
        forall j :: j in u && KeyOf(u[j]) == IncomingKey(p) ==> j == i
  {
    var u := SavePlayerNullSafe(t, p, now, created, newId);
    var key := IncomingKey(p);
    NullSafeDistinct(t, p, now, created, newId);
    var i;
    if exists k :: k in t && KeyOf(t[k]) == key {
      i :| i in t && KeyOf(t[i]) == key;
    } else {
      i := newId;
    }
    assert i in u && KeyOf(u[i]) == key;
  }

  /** Saving any player twice with the NULL-safe upsert, at the same moment,
      is saving it once. */
  lemma NullSafeTwice(t: Table, p: Scraped, now: string, created: string, newId: nat, newId2: nat)
    requires newId !in t
    requires newId2 !in SavePlayerNullSafe(t, p, now, created, newId)
    ensures var u := SavePlayerNullSafe(t, p, now, created, newId);
      SavePlayerNullSafe(u, p, now, created, newId2) == u
  {
    var u := SavePlayerNullSafe(t, p, now, created, newId);
    var key := IncomingKey(p);
    if exists i :: i in t && KeyOf(t[i]) == key {
      var i :| i in t && KeyOf(t[i]) == key;
      assert KeyOf(u[i]) == key;
    } else {
      assert KeyOf(u[newId]) == key;
    }
    var v := SavePlayerNullSafe(u, p, now, created, newId2);
    assert v.Keys == u.Keys;
    forall j | j in u
      ensures v[j] == u[j]
    {
    }
  }
}
