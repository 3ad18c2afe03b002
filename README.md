# MLS player scraper: a verified model of its data logic

The mls-player-scraper repository collects Major League Soccer rosters, player
bios, schedules and high-school information with a headless browser, and stores
them in SQLite. Between the network calls it has a layer of plain data logic.
This project models that layer in Dafny and proves properties of it:

- **Normalisation.** High-school names are normalised for matching by six
  ordered suffix rules, punctuation removal and whitespace collapse.
  Hometowns of the form "City, State" are split, and U.S. state names are
  mapped to their two-letter codes.
- **High-school scrapers.** There are three: the multi-strategy scraper
  (direct URLs, bio page, NCSA, web search), the Wikipedia scraper and the
  Grokipedia scraper. Each cleans its candidate captures, runs an ordered
  chain of rejection rules and keeps the first candidate accepted. Each also
  tries its strategies or URLs in order and returns the first result.
- **Database statements.** Each is modelled as a function on a table, which
  is a map from row id to row:
  - the `update_player_high_school` overwrite;
  - the Transfermarkt merge, which mixes overwrites with COALESCE fill-only
    columns;
  - the `save_player` upsert on (team, season, first name, last name);
  - the `save_match` upsert on `match_id`;
  - the `clean_highschool_names.py` prefix clean-up.
- **Roster parsing.** The player-URL slug becomes first and last names. The
  href filter and de-duplication loop keeps the first link per cleaned key.
  A bio page fills the birthplace; a club page overwrites it.
- **Schedule parsing.** Matches are read line by line. A row text decides
  home or away. When fewer than ten row matches are found, the text-pattern
  fallback runs. The `match_id` builder is modelled too.
- **Export and config.** `escape_mysql` has a proved round trip, and the
  INSERT line is assembled from it. The team lookups run over a given team
  list.

## How the model is built

- **Files.** Each core source file has its own module:
  - `normalize.dfy`;
  - `hs_scraper.dfy`, `hs_wikipedia.dfy` and `hs_grokipedia.dfy`;
  - `transfermarkt.dfy`, `roster.dfy` and `schedule.dfy`;
  - `clean_names.dfy`, `export.dfy` and `config.dfy`.
- **Shared modules.**
  - `options.dfy`: Option.
  - `ascii.dfy`: ASCII character classes, `lower`/`upper`/`title`, `strip`,
    whitespace splitting and joining, substring search.
  - `regex.dfy`: a small matcher for the anchored literal and
    character-class patterns that `re.sub` applies with `^` or `$`.
  - `highschool.dfy`: capture clean-up and first-accepted selection, common
    to the three high-school scrapers.
  - `players.dfy`: the `players` table and `update_player_high_school`.
- **Form.** Loops in the source are methods with `for` loops and
  invariants. Each method is proved equal to a specification function, and
  the properties are proved about those functions. Pure code is modelled as
  functions and lemmas.
- **Captures.** Python's backtracking `re` engine is not modelled. What a
  pattern captures in a page is an input:
  - `re.search` per pattern gives `seq<Option<string>>`;
  - `re.findall` per pattern gives `seq<seq<string>>`;
  - location lookups are function parameters.
- **Fetches.** Every browser fetch is a function parameter returning a page
  or None.
- **Timestamps.** `datetime.now()` and `CURRENT_TIMESTAMP` are parameters.
  In the two player loops each UPDATE statement evaluates its own
  `CURRENT_TIMESTAMP`, so each loop entry carries its own stamp.
- **Suffix rules.** `normalize_high_school` applies all six suffix rules,
  once each, in order, so it is not idempotent: "Lincoln High School
  Academy" becomes "lincoln high school" and then "lincoln".

## Model

| member | source | states |
|---|---|---|
| Normalize.Normalized | scrapers/normalize.py:14-15 | the normalised name is None exactly when the input is None or empty |
| Normalize.NormalizeHighSchool | scrapers/normalize.py:5-36 | the loop that applies the suffix rules one per iteration, then removes punctuation, collapses whitespace and strips, computes `Normalized` |
| Normalize.SuffixRulesAreSuffixRules | scrapers/normalize.py:21-28 | each of the six suffix rules is end-anchored and starts with a required whitespace run |
| Normalize.NormalizedShape | scrapers/normalize.py:18-36 | a normalised name has no upper-case letter, no leading or trailing whitespace, no `'` or `.`, and is single-spaced |
| Normalize.StrippedLowerHasNoUpper | scrapers/normalize.py:18 | lower-casing then stripping leaves no upper-case letter |
| Normalize.FinishingKeepsShape | scrapers/normalize.py:33-36 | removing punctuation, collapsing whitespace and stripping any lower-case text gives the final shape (no upper case, no `'` or `.`, single-spaced) |
| Normalize.NormalizedIgnoresCase | scrapers/normalize.py:18 | upper-casing the input does not change the normalised name |
| Normalize.SuffixNeedsSpace | scrapers/normalize.py:21-30 | each suffix rule either leaves the name unchanged or cuts it to a proper prefix followed by whitespace, so a name that is only a suffix is not stripped |
| Normalize.AcademyRemoved | scrapers/normalize.py:27-30 | a name ending in a word, then whitespace and "academy" in any case, loses exactly the whitespace and "academy" |
| Normalize.CutKeepsFirstWord | scrapers/normalize.py:22-30 | applying any number of the suffix rules in order never cuts into the first word |
| Normalize.StateCode | scrapers/normalize.py:75-79 | a state name in the table, matched case-insensitively, maps to its code; otherwise a two-character state is upper-cased; otherwise it is returned unchanged |
| Normalize.ParseHometown | scrapers/normalize.py:47-81 | None or empty gives (None, None); without a comma the result is (stripped input, None); with a comma both parts are present |
| Normalize.HometownWithComma | scrapers/normalize.py:67-79 | with a comma, the city is the stripped first part and the state is the `StateCode` of the stripped last part; middle parts are ignored |
| Normalize.SplitFirstLast | scrapers/normalize.py:67 | splitting on a character gives at least two parts, the text before the first occurrence and the text after the last |
| Normalize.StateNameAnyCase | scrapers/normalize.py:75-76 | a state name in the table gives the same code in any letter case |
| HighSchool.Clean | scrapers/highschool_scraper.py:339-340 | a cleaned capture is no longer than the capture, begins and ends with a word character (or is empty), and is single-spaced |
| HighSchool.CleanShape | scrapers/highschool_wikipedia.py:200-204 | any substring of a single-spaced text is single-spaced |
| HighSchool.StrippedLocation | scrapers/highschool_wikipedia.py:235-242 | no match gives (None, None); a match gives both captures stripped, with the state neither mapped nor upper-cased |
| HighSchool.SelectChoice | scrapers/highschool_wikipedia.py:198-231 | scanning one pattern's matches returns the first accepted candidate, after every earlier one was rejected; it returns None exactly when all are rejected |
| HighSchool.FirstAcceptedChoice | scrapers/highschool_wikipedia.py:197-231 | across all patterns, in order, and all matches, in text order, the first accepted candidate wins; None exactly when every candidate is rejected |
| HighSchool.FirstAcceptedMatchChoice | scrapers/highschool_scraper.py:334-394 | with only the first match of each pattern examined, the first accepted one wins; None exactly when each is rejected |
| HsScraper.ExtractFromText | scrapers/highschool_scraper.py:321-396 | the pattern loop with `continue` and early return computes the first-accepted result |
| HsScraper.ExtractedIsAccepted | scrapers/highschool_scraper.py:343-394 | an accepted name has length 4 to 80 and is not a placeholder or generic name. It has no skip word, obeys the academy rule, starts upper-case and has at least two words. It is the first accepted capture and carries the caller's URL and source name |
| HsScraper.ExtractedNone | scrapers/highschool_scraper.py:334-396 | no result exactly when every pattern's first match is rejected |
| HsScraper.AcademyRule | scrapers/highschool_scraper.py:358-366 | every accepted name contains "academy" or one of the school terms |
| HsScraper.FindHighSchool | scrapers/highschool_scraper.py:69-104 | direct URLs, then bio page, then NCSA, then search: the first non-None result is returned, and None only when all four are None |
| HsScraper.NcsaSchoolName | scrapers/highschool_scraper.py:398-405 | the name is the slug with `-` turned into a space and title-cased: same length, other non-letters kept, each letter upper-cased when it starts a word and lower-cased otherwise |
| HsScraper.NcsaState | scrapers/highschool_scraper.py:417-432 | a state name in the table maps to its code; otherwise its first two characters are upper-cased |
| HsScraper.NcsaLocation | scrapers/highschool_scraper.py:407-434 | no URL match gives (None, None); otherwise the city comes from the second segment and the state from the first |
| HsScraper.NcsaStateShort | scrapers/highschool_scraper.py:431-432 | the NCSA state has at most two characters, and exactly two when the segment has two or more |
| HsScraper.NcsaCodesAreTwoLetters | scrapers/highschool_scraper.py:417-430 | every code in the NCSA state table has two characters |
| HsWikipedia.ExtractHighSchool | scrapers/highschool_wikipedia.py:176-233 | the nested pattern and match loops with early return compute the first-accepted result |
| HsWikipedia.ExtractedIsAccepted | scrapers/highschool_wikipedia.py:200-231 | an accepted name has length 8 to 60, no skip word, and a school term. It is the first accepted capture over patterns and matches, with source "Wikipedia" and the page URL |
| HsWikipedia.RejectsNonSchools | scrapers/highschool_wikipedia.py:211-214 | a name containing "academy", "college" or "university" is rejected |
| HsWikipedia.CheckPage | scrapers/highschool_wikipedia.py:105-131 | a result requires status 200 and a soccer term in the page; such a page gives the extraction from its captures |
| HsWikipedia.Slug | scrapers/highschool_wikipedia.py:73-74 | the article slug is the first name, `_`, the last name, character by character, with every space turned into `_` |
| HsWikipedia.ArticleUrls | scrapers/highschool_wikipedia.py:76-90 | the three article URLs, in order: `https://en.wikipedia.org/wiki/` plus the slug, then that plus `_(soccer)`, then that plus `_(American_soccer)`; all three differ |
| HsWikipedia.Searched | scrapers/highschool_wikipedia.py:133-174 | a failed search gives nothing; a landing on an article reads that article; a search page with no first result or an empty link gives nothing; otherwise the first result's page is read, and nothing if it cannot be opened |
| HsWikipedia.Attempts | scrapers/highschool_wikipedia.py:76-95 | four attempts, in order: the page check of each of the three article URLs, then the search for "first last" |
| HsWikipedia.FindHighSchool | scrapers/highschool_wikipedia.py:63-103 | the attempt loop returns the first non-None of the three article URLs and the search |
| HsWikipedia.FoundSource | scrapers/highschool_wikipedia.py:76-103 | a result has source "Wikipedia" and comes from one of the article URLs or from the search |
| HsWikipedia.ExtractedStamp | scrapers/highschool_wikipedia.py:225-231 | an extracted result carries the page URL and source "Wikipedia" |
| HsWikipedia.SearchedStamp | scrapers/highschool_wikipedia.py:148-169 | a search result has source "Wikipedia" |
| HsGrokipedia.ExtractHighSchool | scrapers/highschool_grokipedia.py:129-203 | the nested loops with prefix stripping and early return compute the first-accepted result |
| HsGrokipedia.StripPrefixes | scrapers/highschool_grokipedia.py:166-173 | the prefix loop applies each of the four rules once, in order |
| HsGrokipedia.PrefixRulesArePrefixRules | scrapers/highschool_grokipedia.py:166-171 | each of the four rules is anchored at the start, and its second element is an alternation |
| HsGrokipedia.PrepIsSuffix | scrapers/highschool_grokipedia.py:159-173 | the prepared candidate is a suffix of the cleaned capture |
| HsGrokipedia.ExtractedIsAccepted | scrapers/highschool_grokipedia.py:176-201 | after prefix stripping, an accepted name has length 8 to 60, no skip word, and a school term. It is the first accepted candidate, with source "Grokipedia" and the landed URL |
| HsGrokipedia.LeadInsMiss | scrapers/highschool_grokipedia.py:166-170 | a name not starting with d, h, m, s or t, in any case, is not touched by the three lead-in rules |
| HsGrokipedia.AtMisses | scrapers/highschool_grokipedia.py:171 | a name not starting with `a` is not touched by the "At" rule |
| HsGrokipedia.PrefixRulesKeepOtherNames | scrapers/highschool_grokipedia.py:166-173 | a name whose first letter starts none of the rules is left unchanged |
| HsGrokipedia.AtPrefixRemoved | scrapers/highschool_grokipedia.py:166-173 | "At", then whitespace, then a name: all four rules together remove exactly the leading "At" and the whitespace |
| HsGrokipedia.AtRuleStrips | scrapers/highschool_grokipedia.py:171 | the "At" rule removes "At" and the whitespace after it |
| HsGrokipedia.BuildQuery | scrapers/highschool_grokipedia.py:73-79 | the append sequence builds the query: the full name, "soccer", then the city and the team only when non-empty, joined by single spaces |
| HsGrokipedia.FindHighSchool | scrapers/highschool_grokipedia.py:63-127 | a result requires a landed URL containing "/page/" and a soccer term in the page; such a page gives the extraction from its captures |
| Players.UpdateHighSchool | scrapers/highschool_scraper.py:436-459 | the five high-school columns are overwritten, even with NULL, and `updated_at` is set. Every other column and every other row is unchanged, and a missing id changes nothing |
| Players.UpdateHighSchoolIdempotent | scrapers/highschool_scraper.py:436-459 | writing the same result twice is writing it once |
| Players.UpdateHighSchoolLastWins | scrapers/highschool_scraper.py:436-459 | of two writes to a row, the later wins |
| Players.ProcessPlayers | scrapers/highschool_scraper.py:498-515 | the loop writes each school found, in order, each with its own statement's timestamp, and counts them; the count is at most the number of players |
| Players.RecordedFrame | scrapers/highschool_scraper.py:498-515 | rows for which no school was found are unchanged, and no row changes outside the high-school group and `updated_at` |
| Players.RecordedLastWins | scrapers/highschool_scraper.py:498-515 | a player ends with the school, the source and the timestamp of the last entry that found one |
| Transfermarkt.CleanedFieldsAvoidStops | scrapers/transfermarkt_scraper.py:108-117 | the birthplace is cut before "Citizenship" and "Height", and the citizenship before "Height" and "Position"; both are single-spaced |
| Transfermarkt.SearchPlayer | scrapers/transfermarkt_scraper.py:67-137 | no profile link or no profile gives the empty result. Otherwise each field is its capture, stripped and cut, and `source_url` is the profile URL. The result is non-empty exactly when a profile was read |
| Transfermarkt.UpdatePlayer | scrapers/transfermarkt_scraper.py:139-175 | the statement the update list builds is the merge `Merged` |
| Transfermarkt.SetItems | scrapers/transfermarkt_scraper.py:143-168 | executing the assignments gives the merged row, and there are none exactly when birthdate, birthplace and citizenship are all falsy |
| Transfermarkt.MergedFrame | scrapers/transfermarkt_scraper.py:139-175 | other rows are unchanged, and the row changes only in birthdate, birthplace, hometown, citizenship and `updated_at` |
| Transfermarkt.MergedIgnoresHeightAndUrl | scrapers/transfermarkt_scraper.py:120-124 | the scraped height and source URL do not affect the merge |
| Transfermarkt.MergedOverwrites | scrapers/transfermarkt_scraper.py:146-152 | a truthy birthdate or birthplace overwrites the stored one; a falsy one leaves it |
| Transfermarkt.MergedFillsOnlyNull | scrapers/transfermarkt_scraper.py:153-164 | hometown city, hometown state and citizenship are written only where the stored column is NULL; an empty string is kept |
| Transfermarkt.BirthplaceFillsHometown | scrapers/transfermarkt_scraper.py:153-160 | a birthplace with one comma fills an empty hometown with its parsed city and state |
| Transfermarkt.MergedStamp | scrapers/transfermarkt_scraper.py:166-172 | with nothing to write the table is unchanged; otherwise `updated_at` is set |
| Transfermarkt.NonEmptyCountBound | scrapers/transfermarkt_scraper.py:204-218 | the number of non-empty results is at most the number of players, and equal exactly when every result is non-empty |
| Transfermarkt.ProcessPlayersMissingData | scrapers/transfermarkt_scraper.py:204-218 | the loop merges each non-empty result, each with its own statement's timestamp, and `updated_count` is the number of non-empty results |
| Transfermarkt.CountedWithoutChange | scrapers/transfermarkt_scraper.py:120-124 | a result holding only height and source URL is counted but writes nothing |
| Roster.KeyShape | scrapers/roster_scraper.py:134 | the de-duplication key is a prefix of the href, with no `?` and no trailing `/` |
| Roster.FindPlayerLinks | scrapers/roster_scraper.py:111-140 | the loop with its seen set keeps the admitted hrefs, made absolute, and keeps the first per key |
| Roster.CandidatesAdmitted | scrapers/roster_scraper.py:121-131 | a candidate is exactly an admitted href (non-empty, containing "/players/", not an index page), made absolute |
| Roster.FirstPerKeyDistinct | scrapers/roster_scraper.py:134-138 | no two kept links share a key |
| Roster.FirstPerKeyCovers | scrapers/roster_scraper.py:134-138 | every candidate's key is the key of some kept link |
| Roster.FirstPerKeyIsFirst | scrapers/roster_scraper.py:134-138 | each kept link is the first candidate with its key |
| Roster.SlugStart | scrapers/roster_scraper.py:156 | the slug starts after the first "/players/" that is followed by a slug character |
| Roster.Slug | scrapers/roster_scraper.py:156-158 | a slug is non-empty and has no `/` or `?`; there is none exactly when no "/players/" is followed by a slug character |
| Roster.FromUrl | scrapers/roster_scraper.py:142-167 | team, season and bio URL come from the inputs; position, jersey number and headshot start as None; the names are parsed from the slug |
| Roster.NamesJoin | scrapers/roster_scraper.py:160-165 | a first name is one word and implies a last name; first and last joined give the title-cased slug words |
| Roster.LastNameTruthy | scrapers/roster_scraper.py:160-165 | the last name is truthy exactly when there is a slug with at least one word |
| Roster.SiteSlug | scrapers/roster_scraper.py:156 | for an MLS player URL, the slug is the run of slug characters after "/players/" |
| Roster.NamesOfWords | scrapers/roster_scraper.py:160-165 | with two or more slug words, the first is the first name and the rest joined is the last name; with one word there is no first name |
| Roster.ThreeWordSlug | tests/test_roster_scraper.py:228-234 | "john-doe-iii" gives "John" and "Doe Iii" |
| Roster.MononymSlug | tests/test_roster_scraper.py:71-77 | "artur" gives no first name and last name "Artur" |
| Roster.QueryIgnored | tests/test_roster_scraper.py:100-114 | a query string or a missing trailing slash does not change the names |
| Roster.TwoWordNames | tests/test_roster_scraper.py:55-61 | a two-word slug gives the two words, title-cased |
| Roster.EmptySlug | tests/test_roster_scraper.py:220-226 | "/players//" gives no names |
| Roster.ScrapeTeamRoster | scrapers/roster_scraper.py:57-109 | no page gives no players; otherwise the players come from the de-duplicated links |
| Roster.PlayersFromLinks | scrapers/roster_scraper.py:88-92 | the loop appends each extracted player with a truthy last name |
| Roster.RosterOfKeeps | scrapers/roster_scraper.py:88-92 | the roster holds exactly the extracted players with a truthy last name |
| Roster.ScrapePlayerBio | scrapers/roster_scraper.py:169-279 | the sequence of page reads computes `Bio` |
| Roster.ReadBioPage | scrapers/roster_scraper.py:187-241 | the MLS bio page steps compute `MlsPage` |
| Roster.ReadPageFields | scrapers/roster_scraper.py:187-213 | position, height, weight and the first matching birthdate pattern are read |
| Roster.ReadBirthplace | scrapers/roster_scraper.py:215-234 | the birthplace loop consults only the first matching pattern |
| Roster.FillFromBioPage | scrapers/roster_scraper.py:227-233 | the bio-page birthplace fills birthplace and hometown |
| Roster.ReadClubPage | scrapers/roster_scraper.py:244-268 | the club-page step computes `ClubStep` |
| Roster.OverwriteFromClub | scrapers/roster_scraper.py:257-264 | the club-page birthplace overwrites birthplace and hometown |
| Roster.BioFrame | scrapers/roster_scraper.py:169-279 | the bio scrape never changes team, season, names or bio URL; no bio URL or no page leaves the player unchanged |
| Roster.MlsBirthplaceFirstMatch | scrapers/roster_scraper.py:221-234 | patterns after the first match are never consulted |
| Roster.MlsBirthplaceFillsEmpty | scrapers/roster_scraper.py:221-234 | the MLS birthplace fills birthplace, hometown city and hometown state only where they are empty |
| Roster.CleanBirthplace | scrapers/roster_scraper.py:224-226 | the cut birthplace is stripped, single-spaced, and contains no "Height", "Weight" or "Position" |
| Roster.ClubSlugShape | scrapers/roster_scraper.py:245 | the club slug is first name, `-`, last name, lower-cased, with no space; a missing first name gives "none-" |
| Roster.ClubUrlBeforePage | scrapers/roster_scraper.py:245-246 | the club URL depends only on the names, which the MLS page does not change |
| Roster.ClubBirthplaceWins | scrapers/roster_scraper.py:255-264 | a club birthplace overwrites the birthplace, and its truthy city and state overwrite the hometown |
| Roster.NoClubBirthplace | scrapers/roster_scraper.py:244-268 | without a domain, a club page or a club birthplace, the result is the MLS page's |
| Roster.SavePlayer | scrapers/roster_scraper.py:281-328 | the upsert keeps every row, and adds at most the new one |
| Roster.SavePlayerConflict | scrapers/roster_scraper.py:293-305 | on conflict, no row is added. The twelve listed columns take the incoming values, NULL included. Birthplace, the high-school source columns and `created_at` are kept, and non-clashing rows are unchanged |
| Roster.SavePlayerInsert | scrapers/roster_scraper.py:287-292 | with no clash, one row is added with the incoming key and columns; its birthplace and high-school location and source are NULL |
| Roster.SavePlayerUnique | tests/test_db.py:402-422 | the upsert preserves the UNIQUE constraint |
| Roster.SavePlayerOneRow | scrapers/roster_scraper.py:287-305 | with a complete key, exactly one row has the incoming key after saving |
| Roster.SavePlayerTwice | scrapers/roster_scraper.py:287-305 | with a complete key, saving again at the same time changes nothing |
| Roster.MononymSavedTwice | scrapers/roster_scraper.py:287-293 | a NULL first name never conflicts, so saving a mononym twice leaves two rows with the same key |
| Roster.SavePlayerNullSafe | scrapers/roster_scraper.py:287-305 | the NULL-safe upsert keeps every row and adds at most one |
| Roster.NullSafeAgrees | scrapers/roster_scraper.py:287-305 | for a complete key the NULL-safe upsert equals the statement as written |
| Roster.NullSafeDistinct | scrapers/roster_scraper.py:287-305 | the NULL-safe upsert preserves distinct keys |
| Roster.NullSafeOneRow | scrapers/roster_scraper.py:287-305 | after a NULL-safe save, exactly one row has the incoming key, whatever its NULLs |
| Roster.NullSafeTwice | scrapers/roster_scraper.py:287-305 | a NULL-safe save repeated at the same time changes nothing |
| Schedule.NonEmptyStripped | scrapers/schedule_scraper.py:165 | the lines are stripped and none is empty |
| Schedule.ExtractMatchData | scrapers/schedule_scraper.py:149-204 | splitting the card text into lines and scanning them computes `CardMatch` |
| Schedule.MatchFromLines | scrapers/schedule_scraper.py:167-202 | the team, date, time and score loops compute `CardMatch` |
| Schedule.CollectTeamLines | scrapers/schedule_scraper.py:168-172 | the loop collects the lines containing a team token |
| Schedule.FirstHit | scrapers/schedule_scraper.py:180-184 | the loop with `break` returns the first line's match |
| Schedule.CardMatchFields | scrapers/schedule_scraper.py:151-202 | season, competition and no venue are fixed. Both teams are set exactly when there are two team lines, and then they are the first two. Status is "final" exactly when a score line exists, and both scores are set or neither |
| Schedule.TeamLinesAreTeamLines | scrapers/schedule_scraper.py:168-172 | the team lines are exactly the lines containing a team token |
| Schedule.CardDateFirstLine | scrapers/schedule_scraper.py:179-184 | the date comes from the first line whose date pattern matches |
| Schedule.ExtractMatchFromRow | scrapers/schedule_scraper.py:206-255 | the row steps compute `RowMatch` |
| Schedule.RowSides | scrapers/schedule_scraper.py:224-233 | " vs " or " v " makes the team the home side; otherwise " @ " or " at " makes it the away side; the "vs" test takes precedence; a score sets status "final" |
| Schedule.RowWithoutOpponentDropped | scrapers/schedule_scraper.py:224-233 | a row whose opponent pattern does not match lacks a team and is not kept |
| Schedule.TextMatches | scrapers/schedule_scraper.py:257-276 | one match per text-pattern hit, in order |
| Schedule.ScrapeTeamSchedule | scrapers/schedule_scraper.py:93-130 | no page gives no matches; otherwise the kept rows, then the text matches when fewer than ten rows were kept |
| Schedule.KeptRowsHaveTeams | scrapers/schedule_scraper.py:108-114 | every kept row match has both teams and comes from one of the rows |
| Schedule.TeamScheduleFallback | scrapers/schedule_scraper.py:116-119 | the row matches come first; with ten or more the text fallback is skipped, and otherwise the fallback's matches follow |
| Schedule.TextMatchFields | scrapers/schedule_scraper.py:266-274 | the team is home and the stripped opponent away, status "scheduled", and the year defaults to the season |
| Schedule.KeepIdCharsAll | scrapers/schedule_scraper.py:286 | the filter leaves only ASCII letters, digits and `-` |
| Schedule.MatchIdShape | scrapers/schedule_scraper.py:285-286 | `match_id` is the filtered first three characters of each team and the filtered date, joined by `-`. It contains only letters, digits and `-`, with at least two `-` |
| Schedule.SaveMatch | scrapers/schedule_scraper.py:278-318 | the upsert keeps every row and adds at most one |
| Schedule.SaveMatchConflict | scrapers/schedule_scraper.py:293-299 | on conflict only time, venue, status, scores and `updated_at` change; season, date, teams and competition are kept; other rows are unchanged |
| Schedule.SaveMatchNeedsTeams | scrapers/schedule_scraper.py:283-316 | a match without both teams fails to build its id and saves nothing |
| Schedule.SaveMatchUnique | tests/test_db.py:424-444 | the upsert preserves `match_id` uniqueness |
| Schedule.SaveMatchOneRow | scrapers/schedule_scraper.py:285-299 | after saving, exactly one row has the match's id |
| CleanNames.CleanRulesArePrefixRules | scripts/clean_highschool_names.py:23-30 | each of the eight rules is anchored at the start |
| CleanNames.CleanNameIsSuffix | scripts/clean_highschool_names.py:22-30 | the cleaned name is a suffix of the original |
| CleanNames.AtRuleCaseSensitive | scripts/clean_highschool_names.py:26 | the "At" rule is case-sensitive: a name not starting with `A` is untouched |
| CleanNames.AtRuleStrips | scripts/clean_highschool_names.py:26 | the "At" rule removes "At" and the whitespace after it |
| CleanNames.StripPrefixes | scripts/clean_highschool_names.py:22-30 | the eight substitutions compute `CleanName` |
| CleanNames.Clean | scripts/clean_highschool_names.py:17-35 | the row loop writes each changed name and counts the changed rows |
| CleanNames.CleanedFrame | scripts/clean_highschool_names.py:34 | only `high_school` changes, and only in the rows selected |
| CleanNames.CleanedRows | scripts/clean_highschool_names.py:32-35 | every selected row ends with its cleaned name, and nothing else changes |
| CleanNames.CountIsChangedRows | scripts/clean_highschool_names.py:32-35 | `cleaned_count` is the number of rows that changed |
| CleanNames.CleanSelected | scripts/clean_highschool_names.py:14-35 | rows without a Grokipedia school are untouched; a selected row changes exactly when its cleaned name differs; the count equals the rows changed |
| Export.EscapeMysql | scripts/export_all_formats.py:12-19 | a literal is never empty |
| Export.EscapeTextOnePass | scripts/export_all_formats.py:18 | doubling backslashes and then escaping quotes equals escaping each character once |
| Export.UnescapeEscape | scripts/export_all_formats.py:18-19 | unescaping the inner text recovers the string, and the literal is the escaped text in single quotes |
| Export.EscapeTextInjective | scripts/export_all_formats.py:18-19 | escaping is injective on strings |
| Export.EscapeLength | scripts/export_all_formats.py:18-19 | the literal's length is the input's plus the number of `\` and of `'`, plus 2 |
| Export.EscapedQuotes | scripts/export_all_formats.py:18-19 | every interior `'` follows an odd run of backslashes, and the closing quote an even one |
| Export.ReadValueWritten | scripts/export_all_formats.py:12-19 | reading back a literal gives the original value, NULL, integer or string |
| Export.EscapeMysqlInjective | scripts/export_all_formats.py:12-19 | distinct values give distinct literals |
| Export.ValueListRoundTrip | scripts/export_all_formats.py:153 | a row's literals joined by ", " read back to the values |
| Export.RowValues | scripts/export_all_formats.py:153 | one value per column |
| Export.InsertLineValues | scripts/export_all_formats.py:152-154 | an INSERT line's value list reads back, in column order, to the row's column values |
| Config.TeamBySlug | scrapers/config_loader.py:16-22 | None exactly when no team has the slug; a result has the slug and is one of the teams |
| Config.TeamBySlugFirst | scrapers/config_loader.py:19-21 | the team returned is the first with that slug |
| Config.CaseMismatchFindsNothing | tests/test_config_loader.py:125-145 | with lower-case slugs configured, a slug with an upper-case letter finds nothing |
| Config.RosterUrls | scrapers/config_loader.py:25-28 | one pair per team, in order: pair i is team i's name and roster URL |
| Config.ScheduleUrls | scrapers/config_loader.py:31-34 | one pair per team, in order: pair i is team i's name and schedule URL |
| Config.UrlsFollowTeams | scrapers/config_loader.py:25-34 | both lists have one entry per team, position i of each holds team i's name with its roster or schedule URL, the names line up, and the lists hold the URLs of any team the lookup finds |

## Left out

- Browser work: the Playwright lifecycle, `page.goto`, selectors, `inner_text`, clicks and `asyncio.sleep`. These are async I/O. Each fetch is a parameter that returns a page or None.
- Python's `re` engine. The captures of non-anchored searches and `findall` are inputs. The matcher in `regex.dfy` covers only the anchored literal and character-class rules that `re.sub` applies.
- The four strategies of the multi-strategy `find_high_school` (direct signing URLs, bio page, NCSA search, DuckDuckGo) are browser fetches, so their results are inputs and only the order is modelled.
- Exceptions raised mid-scrape, such as timeouts, are not modelled. The one exception that decides a result, a team that is None in `match_id`, is modelled as "nothing saved".
- `scrape_all_rosters`, `scrape_single_team`, `scrape_full_schedule`, `_find_match_elements`, `scrape_all_team_schedules` and the `process_*` entry points: these are orchestration around browser calls and printing. Their counting loops are modelled.
- The `process_*` SQL pre-filters (U.S.-born filter, `LIMIT`): these are database-side selection. The selected rows are an input.
- `scrapers/db.py`, `log_scrape`, the schema DDL, `view_data.py`, the CSV, JSON and xlsx exporters, the dump's file writing, every `main()` and `run_scraper.py`: these are I/O and CLI dispatch.
- `load_teams` reading `config/teams.json`, and the `REQUEST_DELAY`/`HEADLESS` environment settings: the team list is a parameter.
- The float branch of `escape_mysql`, and Python's treatment of `bool` as `int`.
- Non-ASCII case mapping and `str.title` behaviour: only ASCII letters change case.
- Roster.ReadPageFields: the weight is taken as an already-parsed integer capture, not a decimal string to convert.
- Normalize.NormalizedShape: concrete name pairs such as "Lincoln HS" to "lincoln" and "St. Thomas H.S." to "st thomas" are not evaluated. The general properties are proved instead: rule order, the whitespace requirement, and the first word surviving, as in "High School".
- CleanNames.Clean: the eight substitutions are applied as a list of rules. They are not eight separate statements.

## Findings

| source | as written | input that shows it | evidently intended | confidence | as-written member | corrected member |
|---|---|---|---|---|---|---|
| scrapers/roster_scraper.py:287-293 | `INSERT ... ON CONFLICT(team, season, first_name, last_name)` relies on SQLite's UNIQUE, which treats NULLs as distinct | a mononym URL such as `/players/artur/` gives `first_name` None; saving that player twice inserts two rows with the same team, season and names | one row per player, with the most recent data | not executed | Roster.MononymSavedTwice | Roster.SavePlayerNullSafe |
