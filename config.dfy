/** scrapers/config_loader.py: the lookups over the teams listed in
    config/teams.json.  Reading the file is left out; the list of teams is a
    parameter. */
module Config {

  import opened Options
  import opened Ascii

  /** One entry of the `teams` list. */
  datatype Team = Team(name: string, slug: string, rosterUrl: string, scheduleUrl: string)

  /** `get_team_by_slug`: the first team, in list order, whose slug is
      exactly `slug`, or None when there is none. */
  function TeamBySlug(teams: seq<Team>, slug: string): (r: Option<Team>)
    ensures r.None? <==> forall i :: 0 <= i < |teams| ==> teams[i].slug != slug
    ensures r.Some? ==> r.value.slug == slug
    ensures r.Some? ==> exists i :: 0 <= i < |teams| && teams[i] == r.value
    decreases |teams|
  {
    if teams == [] then None
    else if teams[0].slug == slug then Some(teams[0])
    else
      var r := TeamBySlug(teams[1..], slug);
      assert forall i :: 1 <= i < |teams| ==> teams[i] == teams[1..][i - 1];
      r
  }

  /** The team returned is the first one with that slug: every team before
      it has another slug. */
  lemma {:induction false} TeamBySlugFirst(teams: seq<Team>, slug: string, i: nat)
    requires i < |teams| && teams[i].slug == slug
    requires forall j :: 0 <= j < i ==> teams[j].slug != slug
    ensures TeamBySlug(teams, slug) == Some(teams[i])
    decreases i
  {
    if i > 0 {
      assert teams[0].slug != slug;
      assert forall j :: 0 <= j < i - 1 ==> teams[1..][j] == teams[j + 1];
      TeamBySlugFirst(teams[1..], slug, i - 1);
    }
  }

  /** The lookup is case-sensitive: when every configured slug is lower-case,
      a slug with a capital letter, such as "Atlanta-United", finds nothing. */
  lemma CaseMismatchFindsNothing(teams: seq<Team>, slug: string)
    requires forall i :: 0 <= i < |teams| ==> NoUpper(teams[i].slug)
    requires !NoUpper(slug)
    ensures TeamBySlug(teams, slug) == None
  {
  }

  /** `get_all_roster_urls`: each team's name and roster URL. */
  function RosterUrls(teams: seq<Team>): (urls: seq<(string, string)>)
    ensures |urls| == |teams|
    ensures forall i :: 0 <= i < |teams| ==> urls[i] == (teams[i].name, teams[i].rosterUrl)
  {
    seq(|teams|, i requires 0 <= i < |teams| => (teams[i].name, teams[i].rosterUrl))
  }

  /** `get_all_schedule_urls`: each team's name and schedule URL. */
  function ScheduleUrls(teams: seq<Team>): (urls: seq<(string, string)>)
    ensures |urls| == |teams|
    ensures forall i :: 0 <= i < |teams| ==> urls[i] == (teams[i].name, teams[i].scheduleUrl)
  {
    seq(|teams|, i requires 0 <= i < |teams| => (teams[i].name, teams[i].scheduleUrl))
  }

  /** Both URL lists follow the team list in order: position i of each holds
      team i's name with its roster or schedule URL, so the two lists pair up
      the same names, and they hold the URLs of any team the slug lookup
      finds. */
  lemma UrlsFollowTeams(teams: seq<Team>, slug: string)
    ensures |RosterUrls(teams)| == |ScheduleUrls(teams)| == |teams|
    ensures forall i :: 0 <= i < |teams| ==>
              RosterUrls(teams)[i] == (teams[i].name, teams[i].rosterUrl) &&
              ScheduleUrls(teams)[i] == (teams[i].name, teams[i].scheduleUrl)
    ensures forall i :: 0 <= i < |teams| ==>
              RosterUrls(teams)[i].0 == ScheduleUrls(teams)[i].0 == teams[i].name
    ensures TeamBySlug(teams, slug).Some? ==>
              var t := TeamBySlug(teams, slug).value;
              (t.name, t.rosterUrl) in RosterUrls(teams) && (t.name, t.scheduleUrl) in ScheduleUrls(teams)
  {
    if TeamBySlug(teams, slug).Some? {
      var t := TeamBySlug(teams, slug).value;
      var i :| 0 <= i < |teams| && teams[i] == t;
      assert RosterUrls(teams)[i] == (t.name, t.rosterUrl);
      assert ScheduleUrls(teams)[i] == (t.name, t.scheduleUrl);
    }
  }
}
