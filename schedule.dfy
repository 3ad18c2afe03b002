/** scrapers/schedule_scraper.py: the MLS schedule scraper.  The browser and
    the regular-expression engine are parameters: the text of a page or a
    row, and what each pattern finds in a line or a text.  What is modelled is
    the dict a match card or a table row gives, the filter and the text
    fallback of `scrape_team_schedule`, the `match_id` and the `save_match`
    upsert. */
module Schedule {

  import opened Options
  import opened Ascii

  /** A match dict; a key never set, or set to None, is None. */
  datatype MatchData = MatchData(
    season: Option<int>,
    matchDate: Option<string>,
    matchTime: Option<string>,
    homeTeam: Option<string>,
    awayTeam: Option<string>,
    venue: Option<string>,
    competition: Option<string>,
    homeScore: Option<int>,
    awayScore: Option<int>,
    status: Option<string>)

  const Competition: string := "MLS Regular Season"

  /** The dict both extractors start from. */
  function Initial(season: int): MatchData {
    MatchData(Some(season), None, None, None, None, None, Some(Competition), None, None, Some("scheduled"))
  }

  /** Both teams are set (and non-empty), the condition for keeping a match. */
  predicate HasTeams(m: MatchData) {
    Truthy(m.homeTeam) && Truthy(m.awayTeam)
  }

  // ---------------------------------------------------------------------------
  // _extract_match_data

  /** The substrings that make a line look like a team name. */
  const TeamTokens: seq<string> := ["FC", "SC", "United", "City", "Galaxy", "Sounders", "Timbers", "Fire", "Crew"]

  /** `[l.strip() for l in parts if l.strip()]`. */
  function NonEmptyStripped(parts: seq<string>): (ls: seq<string>)
    ensures |ls| <= |parts|
    ensures forall i :: 0 <= i < |ls| ==> ls[i] != []
    decreases |parts|
  {
    if parts == [] then []
    else
      var rest := NonEmptyStripped(parts[..|parts| - 1]);
      var l := Strip(parts[|parts| - 1]);
      if l != [] then rest + [l] else rest
  }

  /** The non-empty stripped lines of an element's text. */
  function Lines(text: string): seq<string> {
    NonEmptyStripped(SplitOn(text, '\n'))
  }

  /** The lines that contain a team token, in order. */
  function TeamLines(lines: seq<string>): (ts: seq<string>)
    ensures |ts| <= |lines|
    decreases |lines|
  {
    if lines == [] then []
    else
      var rest := TeamLines(lines[..|lines| - 1]);
      var l := lines[|lines| - 1];
      if ContainsAny(l, TeamTokens) then rest + [l] else rest
  }

  /** What a pattern finds in each line, in order. */
  function Hits<T>(lines: seq<string>, find: string -> Option<T>): (hs: seq<Option<T>>)
    ensures |hs| == |lines|
    ensures forall i :: 0 <= i < |lines| ==> hs[i] == find(lines[i])
  {
    seq(|lines|, i requires 0 <= i < |lines| => find(lines[i]))
  }

  /** The three line patterns: group 1 of the date and the time pattern, and
      the two numbers of the score pattern. */
  datatype LineFinders = LineFinders(
    date: string -> Option<string>,
    time: string -> Option<string>,
    score: string -> Option<(nat, nat)>)

  /** The dict `_extract_match_data` returns for an element whose text has
      these lines. */
  function CardMatch(season: int, lines: seq<string>, f: LineFinders): MatchData {
    var teams := TeamLines(lines);
    var date := FirstSome(Hits(lines, f.date));
    var time := FirstSome(Hits(lines, f.time));
    var score := FirstSome(Hits(lines, f.score));
    var m := Initial(season);
    var m := if |teams| >= 2 then m.(homeTeam := Some(teams[0]), awayTeam := Some(teams[1])) else m;
    var m := if date.Some? then m.(matchDate := date) else m;
    var m := if time.Some? then m.(matchTime := time) else m;
    if score.Some? then
      m.(homeScore := Some(score.value.0), awayScore := Some(score.value.1), status := Some("final"))
    else m
  }

  /** `_extract_match_data`: the team lines collected, then the date, the
      time and the score each taken from the first line where its pattern
      matches. */
  method ExtractMatchData(season: int, text: string, f: LineFinders) returns (m: MatchData)
    ensures m == CardMatch(season, Lines(text), f)
  {
    var lines := Lines(text);
    m := MatchFromLines(season, lines, f);
  }

  /** The body of `_extract_match_data` once the text is split into lines. */
  method MatchFromLines(season: int, lines: seq<string>, f: LineFinders) returns (m: MatchData)
    ensures m == CardMatch(season, lines, f)
  {
    m := Initial(season);
    var teamNames := CollectTeamLines(lines);
    if |teamNames| >= 2 {
      m := m.(homeTeam := Some(teamNames[0]), awayTeam := Some(teamNames[1]));
    }
    var date := FirstHit(lines, f.date);
    if date.Some? {
      m := m.(matchDate := date);
    }
    var time := FirstHit(lines, f.time);
    if time.Some? {
      m := m.(matchTime := time);
    }
    var score := FirstHit(lines, f.score);
    if score.Some? {
      m := m.(homeScore := Some(score.value.0), awayScore := Some(score.value.1), status := Some("final"));
    }
  }

  /** The loop collecting the lines that name a team, in order. */
  method CollectTeamLines(lines: seq<string>) returns (teamNames: seq<string>)
    ensures teamNames == TeamLines(lines)
  {
    teamNames := [];
    for i := 0 to |lines|
      invariant teamNames == TeamLines(lines[..i])
    {
      assert lines[..i + 1][..i] == lines[..i];
      if ContainsAny(lines[i], TeamTokens) {
        teamNames := teamNames + [lines[i]];
      }
    }
    assert lines[..|lines|] == lines;
  }

  /** A loop over the lines that stops at the first one where the pattern
      matches. */
  method FirstHit<T(==)>(lines: seq<string>, find: string -> Option<T>) returns (r: Option<T>)
    ensures r == FirstSome(Hits(lines, find))
  {
    for i := 0 to |lines|
      invariant forall j :: 0 <= j < i ==> find(lines[j]).None?
    {
      var hit := find(lines[i]);
      if hit.Some? {
        FirstSomeAt(Hits(lines, find), i);
        return hit;
      }
    }
    return None;
  }

  /** The fields of an extracted card: the season given, no venue, the
      competition always "MLS Regular Season"; both teams or neither, and
      when set they are the first two team lines; a score sets both scores
      and "final", and otherwise the status stays "scheduled" with no score. */
  lemma CardMatchFields(season: int, lines: seq<string>, f: LineFinders)
    ensures var m := CardMatch(season, lines, f);
      var teams := TeamLines(lines);
      && m.season == Some(season) && m.venue.None? && m.competition == Some(Competition)
      && (m.homeTeam.Some? <==> |teams| >= 2) && (m.awayTeam.Some? <==> |teams| >= 2)
      && (|teams| >= 2 ==> m.homeTeam == Some(teams[0]) && m.awayTeam == Some(teams[1]))
      && (m.status == Some("final") <==> FirstSome(Hits(lines, f.score)).Some?)
      && (m.status != Some("final") ==> m.status == Some("scheduled") && m.homeScore.None? && m.awayScore.None?)
      && (m.homeScore.Some? <==> m.awayScore.Some?)
  {
  }

  /** The team lines are the lines with a team token, in order. */
  lemma {:induction false} TeamLinesAreTeamLines(lines: seq<string>)
    ensures forall i :: 0 <= i < |TeamLines(lines)| ==> ContainsAny(TeamLines(lines)[i], TeamTokens)
    ensures forall l :: l in lines && ContainsAny(l, TeamTokens) ==> l in TeamLines(lines)
    ensures forall l :: l in TeamLines(lines) ==> l in lines
    decreases |lines|
  {
    if lines != [] {
      var init := lines[..|lines| - 1];
      TeamLinesAreTeamLines(init);
      assert lines == init + [lines[|lines| - 1]];
    }
  }

  /** The date comes from the first line where the date pattern matches:
      lines after it are never consulted. */
  lemma CardDateFirstLine(season: int, lines: seq<string>, f: LineFinders, k: nat)
    requires k < |lines| && f.date(lines[k]).Some?
    requires forall j :: 0 <= j < k ==> f.date(lines[j]).None?
    ensures CardMatch(season, lines, f).matchDate == f.date(lines[k])
  {
    FirstSomeAt(Hits(lines, f.date), k);
  }

  // ---------------------------------------------------------------------------
  // _extract_match_from_row

  /** What the patterns find in a row's text: the opponent after "vs"/"v" and
      after "@"/"at" (group 1, unstripped), group 1 of the date and the time
      pattern, and the two numbers of the score pattern. */
  datatype RowFinds = RowFinds(
    vsOpponent: Option<string>,
    atOpponent: Option<string>,
    date: Option<string>,
    time: Option<string>,
    score: Option<(nat, nat)>)

  /** The text marks the team as the home side. */
  predicate HomeMarker(text: string) {
    Contains(Lower(text), " vs ") || Contains(Lower(text), " v ")
  }

  /** The text marks the team as the away side. */
  predicate AwayMarker(text: string) {
    Contains(text, " @ ") || Contains(Lower(text), " at ")
  }

  /** The dict `_extract_match_from_row` returns. */
  function RowMatch(season: int, text: string, teamName: string, finds: RowFinds): MatchData {
    var m := Initial(season);
    var m :=
      if HomeMarker(text) then
        m.(homeTeam := Some(teamName),
           awayTeam := if finds.vsOpponent.Some? then Some(Strip(finds.vsOpponent.value)) else None)
      else if AwayMarker(text) then
        m.(awayTeam := Some(teamName),
           homeTeam := if finds.atOpponent.Some? then Some(Strip(finds.atOpponent.value)) else None)
      else m;
    var m := if finds.date.Some? then m.(matchDate := finds.date) else m;
    var m := if finds.time.Some? then m.(matchTime := finds.time) else m;
    if finds.score.Some? then
      m.(homeScore := Some(finds.score.value.0), awayScore := Some(finds.score.value.1), status := Some("final"))
    else m
  }

  /** `_extract_match_from_row`: the side, then the date, the time and the
      score, each written when its pattern matched. */
  method ExtractMatchFromRow(season: int, text: string, teamName: string, finds: RowFinds)
    returns (m: MatchData)
    ensures m == RowMatch(season, text, teamName, finds)
  {
    m := Initial(season);
    var lower := Lower(text);
    if Contains(lower, " vs ") || Contains(lower, " v ") {
      m := m.(homeTeam := Some(teamName));
      if finds.vsOpponent.Some? {
        m := m.(awayTeam := Some(Strip(finds.vsOpponent.value)));
      }
    } else if Contains(text, " @ ") || Contains(lower, " at ") {
      m := m.(awayTeam := Some(teamName));
      if finds.atOpponent.Some? {
        m := m.(homeTeam := Some(Strip(finds.atOpponent.value)));
      }
    }
    if finds.date.Some? {
      m := m.(matchDate := finds.date);
    }
    if finds.time.Some? {
      m := m.(matchTime := finds.time);
    }
    if finds.score.Some? {
      m := m.(homeScore := Some(finds.score.value.0), awayScore := Some(finds.score.value.1),
              status := Some("final"));
    }
  }

  /** The side rule: with "vs" or "v" the team is at home, even when "@" or
      "at" also appears; with only "@" or "at" it is away; with neither no
      team is set.  The opponent is the stripped capture. */
  lemma RowSides(season: int, text: string, teamName: string, finds: RowFinds)
    ensures var m := RowMatch(season, text, teamName, finds);
      && (HomeMarker(text) ==>
            m.homeTeam == Some(teamName) &&
            m.awayTeam == (if finds.vsOpponent.Some? then Some(Strip(finds.vsOpponent.value)) else None))
      && (!HomeMarker(text) && AwayMarker(text) ==>
            m.awayTeam == Some(teamName) &&
            m.homeTeam == (if finds.atOpponent.Some? then Some(Strip(finds.atOpponent.value)) else None))
      && (!HomeMarker(text) && !AwayMarker(text) ==> m.homeTeam.None? && m.awayTeam.None?)
      && m.season == Some(season) && m.venue.None? && m.competition == Some(Competition)
      && (m.status == Some("final") <==> finds.score.Some?)
  {
  }

  /** A row without an opponent capture is dropped by the team filter. */
  lemma RowWithoutOpponentDropped(season: int, text: string, teamName: string, finds: RowFinds)
    requires HomeMarker(text) ==> finds.vsOpponent.None?
    requires !HomeMarker(text) ==> finds.atOpponent.None?
    ensures !HasTeams(RowMatch(season, text, teamName, finds))
  {
  }

  // ---------------------------------------------------------------------------
  // _extract_matches_from_text and scrape_team_schedule

  /** One match of the text pattern: the month and day, the year if present,
      the time and the opponent (unstripped). */
  datatype TextFind = TextFind(day: string, year: Option<string>, time: string, opponent: string)

  /** A text match as a dict: the team at home, the year defaulting to the
      season when the pattern found none. */
  function TextMatch(season: int, teamName: string, t: TextFind): MatchData {
    var year := if Truthy(t.year) then t.year.value else IntToString(season);
    MatchData(Some(season), Some(t.day + " " + year), Some(t.time), Some(teamName), Some(Strip(t.opponent)),
              None, Some(Competition), None, None, Some("scheduled"))
  }

  /** `_extract_matches_from_text`: one dict per match, in text order. */
  function TextMatches(season: int, teamName: string, ts: seq<TextFind>): (ms: seq<MatchData>)
    ensures |ms| == |ts|
    ensures forall i :: 0 <= i < |ts| ==> ms[i] == TextMatch(season, teamName, ts[i])
  {
    seq(|ts|, i requires 0 <= i < |ts| => TextMatch(season, teamName, ts[i]))
  }

  /** What a schedule page shows: the text and finds of each selected row,
      and the matches of the text pattern in the page body. */
  datatype SchedulePage = SchedulePage(rows: seq<(string, RowFinds)>, texts: seq<TextFind>)

  /** The row matches that have both teams, in row order. */
  function KeptRows(season: int, teamName: string, rows: seq<(string, RowFinds)>): (ms: seq<MatchData>)
    ensures |ms| <= |rows|
    decreases |rows|
  {
    if rows == [] then []
    else
      var kept := KeptRows(season, teamName, rows[..|rows| - 1]);
      var (text, finds) := rows[|rows| - 1];
      var m := RowMatch(season, text, teamName, finds);
      if HasTeams(m) then kept + [m] else kept
  }

  /** The list `scrape_team_schedule` returns for a page that loaded. */
  function TeamSchedule(season: int, teamName: string, page: SchedulePage): seq<MatchData> {
    var kept := KeptRows(season, teamName, page.rows);
    if |kept| < 10 then kept + TextMatches(season, teamName, page.texts) else kept
  }

  /** `scrape_team_schedule`: nothing when the page fails to load; otherwise
      the row matches that have both teams, and when fewer than 10 of them,
      the text matches after them. */
  method ScrapeTeamSchedule(season: int, teamName: string, page: Option<SchedulePage>)
    returns (matches: seq<MatchData>)
    ensures page.None? ==> matches == []
    ensures page.Some? ==> matches == TeamSchedule(season, teamName, page.value)
  {
    matches := [];
    if page.None? {
      return;
    }
    var rows := page.value.rows;
    for i := 0 to |rows|
      invariant matches == KeptRows(season, teamName, rows[..i])
    {
      assert rows[..i + 1][..i] == rows[..i];
      var (text, finds) := rows[i];
      var m := ExtractMatchFromRow(season, text, teamName, finds);
      if Truthy(m.homeTeam) && Truthy(m.awayTeam) {
        matches := matches + [m];
      }
    }
    assert rows[..|rows|] == rows;
    if |matches| < 10 {
      matches := matches + TextMatches(season, teamName, page.value.texts);
    }
  }

  /** Every kept row match has both teams and comes from a row. */
  lemma {:induction false} KeptRowsHaveTeams(season: int, teamName: string, rows: seq<(string, RowFinds)>)
    ensures forall i :: 0 <= i < |KeptRows(season, teamName, rows)| ==> HasTeams(KeptRows(season, teamName, rows)[i])
    ensures forall m :: m in KeptRows(season, teamName, rows) ==>
              exists j :: 0 <= j < |rows| && m == RowMatch(season, rows[j].0, teamName, rows[j].1)
    decreases |rows|
  {
    if rows != [] {
      var init := rows[..|rows| - 1];
      KeptRowsHaveTeams(season, teamName, init);
      forall m | m in KeptRows(season, teamName, init)
        ensures exists j :: 0 <= j < |rows| && m == RowMatch(season, rows[j].0, teamName, rows[j].1)
      {
        var j :| 0 <= j < |init| && m == RowMatch(season, init[j].0, teamName, init[j].1);
        assert rows[j] == init[j];
      }
    }
  }

  /** The fallback runs exactly when fewer than 10 row matches were kept,
      and the row matches come first. */
  lemma TeamScheduleFallback(season: int, teamName: string, page: SchedulePage)
    ensures |KeptRows(season, teamName, page.rows)| <= |TeamSchedule(season, teamName, page)|
    ensures TeamSchedule(season, teamName, page)[..|KeptRows(season, teamName, page.rows)|] ==
              KeptRows(season, teamName, page.rows)
    ensures |KeptRows(season, teamName, page.rows)| >= 10 ==>
              TeamSchedule(season, teamName, page) == KeptRows(season, teamName, page.rows)
    ensures |KeptRows(season, teamName, page.rows)| < 10 ==>
              TeamSchedule(season, teamName, page)[|KeptRows(season, teamName, page.rows)|..] ==
                TextMatches(season, teamName, page.texts)
  {
    var kept := KeptRows(season, teamName, page.rows);
    var ms := TeamSchedule(season, teamName, page);
    if |kept| < 10 {
      assert ms[..|kept|] == kept;
      assert ms[|kept|..] == TextMatches(season, teamName, page.texts);
    }
  }

  /** A text match has the team at home, the stripped opponent away and
      status "scheduled", and its year is the season when the pattern found
      none. */
  lemma TextMatchFields(season: int, teamName: string, t: TextFind)
    ensures var m := TextMatch(season, teamName, t);
      && m.homeTeam == Some(teamName) && m.awayTeam == Some(Strip(t.opponent))
      && m.status == Some("scheduled") && m.competition == Some(Competition) && m.season == Some(season)
      && (!Truthy(t.year) ==> m.matchDate == Some(t.day + " " + IntToString(season)))
      && (Truthy(t.year) ==> m.matchDate == Some(t.day + " " + t.year.value))
  {
  }

  // ---------------------------------------------------------------------------
  // save_match

  /** One row of `schedules`, every column but the id (the map key). */
  datatype ScheduleRow = ScheduleRow(
    matchId: Option<string>,
    season: Option<int>,
    matchDate: Option<string>,
    matchTime: Option<string>,
    homeTeam: Option<string>,
    awayTeam: Option<string>,
    venue: Option<string>,
    competition: Option<string>,
    broadcast: Option<string>,
    status: Option<string>,
    homeScore: Option<int>,
    awayScore: Option<int>,
    createdAt: Option<string>,
    updatedAt: Option<string>,
    homeTeamRaw: Option<string>,
    awayTeamRaw: Option<string>,
    matchUrl: Option<string>)

  type Schedules = map<nat, ScheduleRow>

  /** The characters `[a-zA-Z0-9-]` keeps. */
  predicate IdChar(c: char) {
    IsLetter(c) || IsDigit(c) || c == '-'
  }

  /** `re.sub(r'[^a-zA-Z0-9-]', '', s)`. */
  function KeepIdChars(s: string): (r: string)
    decreases |s|
  {
    if s == [] then []
    else (if IdChar(s[0]) then [s[0]] else []) + KeepIdChars(s[1..])
  }

  /** What the filter keeps is only letters, digits and "-". */
  lemma {:induction false} KeepIdCharsAll(s: string)
    ensures All(KeepIdChars(s), IdChar) && |KeepIdChars(s)| <= |s|
    decreases |s|
  {
    if s != [] {
      KeepIdCharsAll(s[1..]);
    }
  }

  /** Python's `s[:3]`. */
  function First3(s: string): (r: string)
    ensures |r| <= 3
  {
    if |s| <= 3 then s else s[..3]
  }

  /** How a value shows in an f-string: None as "None". */
  function Shown(s: Option<string>): string {
    if s.Some? then s.value else "None"
  }

  /** The `match_id` of a match with both teams. */
  function MatchId(home: string, away: string, date: Option<string>): string {
    KeepIdChars(First3(home) + "-" + First3(away) + "-" + Shown(date))
  }

  /** The filter keeps each part's own characters in place. */
  lemma {:induction false} KeepIdCharsAppend(a: string, b: string)
    ensures KeepIdChars(a + b) == KeepIdChars(a) + KeepIdChars(b)
    decreases |a|
  {
    if a == [] {
      assert a + b == b;
    } else {
      assert (a + b)[0] == a[0] && (a + b)[1..] == a[1..] + b;
      KeepIdCharsAppend(a[1..], b);
    }
  }

  /** A `match_id` is the filtered three-letter prefixes and date joined by
      "-": so it holds only ASCII letters, digits and "-", and at least two
      "-". */
  lemma MatchIdShape(home: string, away: string, date: Option<string>)
    ensures MatchId(home, away, date) ==
              KeepIdChars(First3(home)) + "-" + KeepIdChars(First3(away)) + "-" + KeepIdChars(Shown(date))
    ensures All(MatchId(home, away, date), IdChar)
    ensures Count(MatchId(home, away, date), '-') >= 2
  {
    var h := KeepIdChars(First3(home));
    var a := KeepIdChars(First3(away));
    var d := KeepIdChars(Shown(date));
    KeepIdCharsAppend(First3(home) + "-" + First3(away) + "-", Shown(date));
    KeepIdCharsAppend(First3(home) + "-" + First3(away), "-");
    KeepIdCharsAppend(First3(home) + "-", First3(away));
    KeepIdCharsAppend(First3(home), "-");
    assert KeepIdChars("-") == "-";
    KeepIdCharsAll(First3(home) + "-" + First3(away) + "-" + Shown(date));
    CountAppend(h + "-" + a + "-", d, '-');
    CountAppend(h + "-" + a, "-", '-');
    CountAppend(h + "-", a, '-');
    CountAppend(h, "-", '-');
    assert Count("-", '-') == 1;
  }

  /** The row the INSERT adds: the eleven listed columns and `updated_at`,
      `created_at` by its default, everything else NULL. */
  function NewMatchRow(id: string, m: MatchData, now: string, created: string): ScheduleRow {
    ScheduleRow(Some(id), m.season, m.matchDate, m.matchTime, m.homeTeam, m.awayTeam, m.venue,
                m.competition, None, m.status, m.homeScore, m.awayScore, Some(created), Some(now),
                None, None, None)
  }

  /** The DO UPDATE SET clause: the time, venue, status, scores and
      `updated_at` take the incoming values. */
  function UpdatedMatchRow(row: ScheduleRow, m: MatchData, now: string): ScheduleRow {
    row.(matchTime := m.matchTime, venue := m.venue, status := m.status,
         homeScore := m.homeScore, awayScore := m.awayScore, updatedAt := Some(now))
  }

  /** `save_match`: `now` is `datetime.now().isoformat()`, `created` the
      CURRENT_TIMESTAMP default and `newId` the id AUTOINCREMENT picks.  A
      missing team makes the `[:3]` slice raise, which is caught, and nothing
      is saved; otherwise the row with the same `match_id` is updated, or a
      row is added. */
  function SaveMatch(t: Schedules, m: MatchData, now: string, created: string, newId: nat): (u: Schedules)
    requires newId !in t
    ensures t.Keys <= u.Keys <= t.Keys + {newId}
  {
    if m.homeTeam.None? || m.awayTeam.None? then t
    else
      var id := MatchId(m.homeTeam.value, m.awayTeam.value, m.matchDate);
      if exists i :: i in t && t[i].matchId == Some(id) then
        map i | i in t :: if t[i].matchId == Some(id) then UpdatedMatchRow(t[i], m, now) else t[i]
      else
        t[newId := NewMatchRow(id, m, now, created)]
  }

  /** `UNIQUE(match_id)`: no two rows share a non-NULL `match_id`. */
  predicate UniqueMatchIds(t: Schedules) {
    forall i, j :: i in t && j in t && i != j && t[i].matchId.Some? ==> t[i].matchId != t[j].matchId
  }

  /** The columns kept on a conflict. */
  predicate KeptOnUpdate(row: ScheduleRow, u: ScheduleRow) {
    && u.matchId == row.matchId && u.season == row.season && u.matchDate == row.matchDate
    && u.homeTeam == row.homeTeam && u.awayTeam == row.awayTeam && u.competition == row.competition
    && u.broadcast == row.broadcast && u.createdAt == row.createdAt
    && u.homeTeamRaw == row.homeTeamRaw && u.awayTeamRaw == row.awayTeamRaw && u.matchUrl == row.matchUrl
  }

  /** On a conflict nothing is added, the row with the `match_id` takes the
      incoming time, venue, status and scores and keeps its season, date,
      teams and competition, and every other row is untouched. */
  lemma SaveMatchConflict(t: Schedules, m: MatchData, now: string, created: string, newId: nat, i: nat)
    requires newId !in t && HasTeams(m) && i in t
    requires t[i].matchId == Some(MatchId(m.homeTeam.value, m.awayTeam.value, m.matchDate))
    ensures var u := SaveMatch(t, m, now, created, newId);
      && u.Keys == t.Keys
      && KeptOnUpdate(t[i], u[i])
      && u[i].matchTime == m.matchTime && u[i].venue == m.venue && u[i].status == m.status
      && u[i].homeScore == m.homeScore && u[i].awayScore == m.awayScore && u[i].updatedAt == Some(now)
      && forall j :: j in t && t[j].matchId != t[i].matchId ==> u[j] == t[j]
  {
  }

  /** A match without a team saves nothing. */
  lemma SaveMatchNeedsTeams(t: Schedules, m: MatchData, now: string, created: string, newId: nat)
    requires newId !in t && (m.homeTeam.None? || m.awayTeam.None?)
    ensures SaveMatch(t, m, now, created, newId) == t
  {
  }

  /** The upsert keeps `match_id` unique. */
  lemma SaveMatchUnique(t: Schedules, m: MatchData, now: string, created: string, newId: nat)
    requires newId !in t && UniqueMatchIds(t)
    ensures UniqueMatchIds(SaveMatch(t, m, now, created, newId))
  {
    var u := SaveMatch(t, m, now, created, newId);
    if m.homeTeam.Some? && m.awayTeam.Some? {
      var id := MatchId(m.homeTeam.value, m.awayTeam.value, m.matchDate);
      if exists k :: k in t && t[k].matchId == Some(id) {
        assert forall k :: k in t ==> u[k].matchId == t[k].matchId;
      } else {
        assert forall k :: k in t ==> u[k] == t[k];
      }
    }
  }

  /** After saving a match with both teams exactly one row has its
      `match_id`. */
  lemma SaveMatchOneRow(t: Schedules, m: MatchData, now: string, created: string, newId: nat)
    requires newId !in t && UniqueMatchIds(t) && m.homeTeam.Some? && m.awayTeam.Some?
    ensures var u := SaveMatch(t, m, now, created, newId);
      var id := MatchId(m.homeTeam.value, m.awayTeam.value, m.matchDate);
      exists i :: i in u && u[i].matchId == Some(id) &&
        forall j :: j in u && u[j].matchId == Some(id) ==> j == i
  {
    var u := SaveMatch(t, m, now, created, newId);
    var id := MatchId(m.homeTeam.value, m.awayTeam.value, m.matchDate);
    SaveMatchUnique(t, m, now, created, newId);
    var i;
    if exists k :: k in t && t[k].matchId == Some(id) {
      i :| i in t && t[i].matchId == Some(id);
    } else {
      i := newId;
    }
    assert i in u && u[i].matchId == Some(id);
  }
}
