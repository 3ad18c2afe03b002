/** scrapers/transfermarkt_scraper.py: birth data read from a player's
    Transfermarkt profile and merged into the `players` table.  The browser is
    a parameter; what is modelled is the profile URL, the clean-up of the
    captured fields, the dict `search_player` fills, the merge policy of
    `update_player` and the counter of `process_players_missing_data`. */
module Transfermarkt {

  import opened Options
  import opened Ascii
  import opened HighSchool
  import opened Normalize
  import opened Players

  // ---------------------------------------------------------------------------
  // search_player

  /** What the four regular expressions find on the profile text: group 1 of
      the birthdate, birthplace, citizenship and metric height patterns, when
      each matches. */
  datatype ProfileCaptures = ProfileCaptures(
    dob: Option<string>,
    birthplace: Option<string>,
    citizenship: Option<string>,
    height: Option<string>)

  /** The dict `search_player` returns; a key that was never set is None. */
  datatype SearchData = SearchData(
    birthdate: Option<string>,
    birthplace: Option<string>,
    citizenship: Option<string>,
    heightMetric: Option<string>,
    sourceUrl: Option<string>)

  /** `{}`. */
  const NoData: SearchData := SearchData(None, None, None, None, None)

  /** The dict has at least one key (`if data:`). */
  predicate NonEmpty(d: SearchData) {
    d.birthdate.Some? || d.birthplace.Some? || d.citizenship.Some? ||
    d.heightMetric.Some? || d.sourceUrl.Some?
  }

  const SiteBase: string := "https://www.transfermarkt.us"

  /** The words at which the birthplace and the citizenship texts are cut. */
  const BirthplaceStops: seq<string> := ["Citizenship", "Height"]
  const CitizenshipStops: seq<string> := ["Height", "Position"]

  /** The profile link made absolute. */
  function ProfileUrl(href: string): string {
    AbsoluteUrl(SiteBase, href)
  }

  /** A cleaned birthplace never mentions "Citizenship" or "Height", and a
      cleaned citizenship never mentions "Height" or "Position". */
  lemma CleanedFieldsAvoidStops(birthplace: string, citizenship: string)
    ensures var bp := CleanField(birthplace, BirthplaceStops);
      SingleSpaced(bp) && !Contains(bp, "Citizenship") && !Contains(bp, "Height")
    ensures var cit := CleanField(citizenship, CitizenshipStops);
      SingleSpaced(cit) && !Contains(cit, "Height") && !Contains(cit, "Position")
  {
    CleanFieldShape(birthplace, BirthplaceStops);
    assert BirthplaceStops[0] == "Citizenship" && BirthplaceStops[1] == "Height";
    CleanFieldShape(citizenship, CitizenshipStops);
    assert CitizenshipStops[0] == "Height" && CitizenshipStops[1] == "Position";
  }

  /** The first profile link on the results of a quick search for a full
      name (None when there is none, or the search failed), and the captures
      of the profile at a URL (None when loading it failed). */
  datatype Site = Site(
    firstLink: string -> Option<string>,
    profile: string -> Option<ProfileCaptures>)

  /** The present value with `f` applied to it. */
  function Lift(o: Option<string>, f: string -> string): (r: Option<string>)
    ensures r.Some? <==> o.Some?
    ensures o.Some? ==> r.value == f(o.value)
  {
    if o.Some? then Some(f(o.value)) else None
  }

  /** `search_player`: search the full name (the team is not used), follow the
      first profile link, then fill the dict field by field; the source URL is
      set whenever the profile was read.  A missing link or a failed load
      returns `{}`. */
  method SearchPlayer(site: Site, first: string, last: string) returns (d: SearchData)
    ensures var link := site.firstLink(first + " " + last);
      && (link.None? ==> d == NoData)
      && (link.Some? && site.profile(ProfileUrl(link.value)).None? ==> d == NoData)
      && (link.Some? && site.profile(ProfileUrl(link.value)).Some? ==>
            var pc := site.profile(ProfileUrl(link.value)).value;
            && d.birthdate == Lift(pc.dob, Strip)
            && d.birthplace == Lift(pc.birthplace, s => CleanField(s, BirthplaceStops))
            && d.citizenship == Lift(pc.citizenship, s => CleanField(s, CitizenshipStops))
            && d.heightMetric == Lift(pc.height, Strip)
            && d.sourceUrl == Some(ProfileUrl(link.value)))
    ensures NonEmpty(d) <==>
              var link := site.firstLink(first + " " + last);
              link.Some? && site.profile(ProfileUrl(link.value)).Some?
  {
    d := NoData;
    var fullName := first + " " + last;
    var link := site.firstLink(fullName);
    if link.None? {
      return;
    }
    var href := link.value;
    if !StartsWith(href, "http") {
      href := SiteBase + href;
    }
    var loaded := site.profile(href);
    if loaded.None? {
      return;
    }
    var pc := loaded.value;
    if pc.dob.Some? {
      d := d.(birthdate := Some(Strip(pc.dob.value)));
    }
    if pc.birthplace.Some? {
      var birthplace := Strip(pc.birthplace.value);
      birthplace := Strip(FirstPiece(birthplace, BirthplaceStops));
      d := d.(birthplace := Some(birthplace));
    }
    if pc.citizenship.Some? {
      var citizenship := Strip(pc.citizenship.value);
      citizenship := Strip(FirstPiece(citizenship, CitizenshipStops));
      d := d.(citizenship := Some(citizenship));
    }
    if pc.height.Some? {
      d := d.(heightMetric := Some(Strip(pc.height.value)));
    }
    d := d.(sourceUrl := Some(href));
  }

  // ---------------------------------------------------------------------------
  // update_player

  /** One `SET` item of the UPDATE statement `update_player` builds. */
  datatype Assignment =
    | SetBirthdate(v: string)
    | SetBirthplace(v: string)
    | FillHometownCity(v: string)
    | FillHometownState(v: string)
    | FillCitizenship(v: string)
    | StampUpdated

  /** The effect of one `SET` item on the row.  Each item writes its own
      column and reads only that column, so carrying the items out one after
      the other gives what SQLite computes from the row as it was. */
  function Assign(row: PlayerRow, a: Assignment, now: string): PlayerRow {
    match a
    case SetBirthdate(v) => row.(birthdate := Some(v))
    case SetBirthplace(v) => row.(birthplace := Some(v))
    case FillHometownCity(v) => row.(hometownCity := Coalesce(row.hometownCity, Some(v)))
    case FillHometownState(v) => row.(hometownState := Coalesce(row.hometownState, Some(v)))
    case FillCitizenship(v) => row.(citizenship := Coalesce(row.citizenship, Some(v)))
    case StampUpdated => row.(updatedAt := Some(now))
  }

  /** The row after the `SET` items, in order. */
  function Executed(row: PlayerRow, items: seq<Assignment>, now: string): PlayerRow
    decreases |items|
  {
    if items == [] then row
    else Assign(Executed(row, items[..|items| - 1], now), items[|items| - 1], now)
  }

  lemma ExecutedSnoc(row: PlayerRow, items: seq<Assignment>, a: Assignment, now: string)
    ensures Executed(row, items + [a], now) == Assign(Executed(row, items, now), a, now)
  {
    assert (items + [a])[..|items|] == items;
  }

  /** The merge policy, column by column, given the (city, state) parsed from
      the birthplace: a truthy birthdate or birthplace overwrites; a truthy
      hometown part and a truthy citizenship fill only a NULL column;
      `updated_at` is stamped when any of the three scraped values was
      truthy. */
  function MergedRow(row: PlayerRow, d: SearchData, hometown: (Option<string>, Option<string>), now: string): PlayerRow {
    row.(birthdate := if Truthy(d.birthdate) then d.birthdate else row.birthdate,
         birthplace := if Truthy(d.birthplace) then d.birthplace else row.birthplace,
         hometownCity := if Truthy(hometown.0) then Coalesce(row.hometownCity, hometown.0) else row.hometownCity,
         hometownState := if Truthy(hometown.1) then Coalesce(row.hometownState, hometown.1) else row.hometownState,
         citizenship := if Truthy(d.citizenship) then Coalesce(row.citizenship, d.citizenship) else row.citizenship,
         updatedAt := if Truthy(d.birthdate) || Truthy(d.birthplace) || Truthy(d.citizenship)
                      then Some(now) else row.updatedAt)
  }

  /** The hometown `update_player` parses from a truthy birthplace; none
      otherwise. */
  function BirthplaceHometown(d: SearchData): (Option<string>, Option<string>) {
    if Truthy(d.birthplace) then ParseHometown(d.birthplace) else (None, None)
  }

  /** The table after `update_player(id, d)`; an id with no row matches
      nothing. */
  function Merged(t: Table, id: nat, d: SearchData, now: string): Table {
    if id in t then t[id := MergedRow(t[id], d, BirthplaceHometown(d), now)] else t
  }

  /** `update_player`: the statement is run, stamped with CURRENT_TIMESTAMP
      `now`, only when it has at least one `SET` item. */
  method UpdatePlayer(t: Table, id: nat, d: SearchData, now: string) returns (u: Table)
    ensures u == Merged(t, id, d, now)
  {
    var hometown: (Option<string>, Option<string>) := (None, None);
    if Truthy(d.birthplace) {
      hometown := ParseHometown(d.birthplace);
    }
    ghost var row := if id in t then t[id] else PlayerRowOfNulls();
    var updates := SetItems(row, d, hometown, now);
    u := t;
    if updates != [] && id in t {
      u := t[id := Executed(t[id], updates, now)];
    }
    if updates == [] && id in t {
      assert t[id := t[id]] == t;
    }
  }

  /** The `SET` items, collected one condition after the other, with the
      stamp last when there is any: carried out on a row, they give the merge
      policy's row, and there are none exactly when nothing is to be written.
      `hometown` is what `parse_hometown` returned for a truthy birthplace. */
  method SetItems(ghost row: PlayerRow, d: SearchData, hometown: (Option<string>, Option<string>), ghost now: string)
    returns (updates: seq<Assignment>)
    requires !Truthy(d.birthplace) ==> hometown == (None, None)
    ensures Executed(row, updates, now) == MergedRow(row, d, hometown, now)
    ensures updates == [] <==> !Truthy(d.birthdate) && !Truthy(d.birthplace) && !Truthy(d.citizenship)
  {
    updates := [];
    if Truthy(d.birthdate) {
      ExecutedSnoc(row, updates, SetBirthdate(d.birthdate.value), now);
      updates := updates + [SetBirthdate(d.birthdate.value)];
    }
    if Truthy(d.birthplace) {
      ExecutedSnoc(row, updates, SetBirthplace(d.birthplace.value), now);
      updates := updates + [SetBirthplace(d.birthplace.value)];
      var (city, state) := hometown;
      if Truthy(city) {
        ExecutedSnoc(row, updates, FillHometownCity(city.value), now);
        updates := updates + [FillHometownCity(city.value)];
      }
      if Truthy(state) {
        ExecutedSnoc(row, updates, FillHometownState(state.value), now);
        updates := updates + [FillHometownState(state.value)];
      }
    }
    if Truthy(d.citizenship) {
      ExecutedSnoc(row, updates, FillCitizenship(d.citizenship.value), now);
      updates := updates + [FillCitizenship(d.citizenship.value)];
    }
    if updates != [] {
      ExecutedSnoc(row, updates, StampUpdated, now);
      updates := updates + [StampUpdated];
    }
  }

  /** A row of NULLs, standing in for the row of an id the table lacks. */
  function PlayerRowOfNulls(): PlayerRow {
    PlayerRow(None, None, None, None, None, None, None, None, None, None, None,
              None, None, None, None, None, None, None, None, None, None, None)
  }

  /** Only the birth columns, the hometown and `updated_at` may change. */
  predicate SameOutsideBirthData(a: PlayerRow, b: PlayerRow) {
    && a.team == b.team && a.season == b.season
    && a.firstName == b.firstName && a.lastName == b.lastName
    && a.highSchool == b.highSchool && a.highSchoolCity == b.highSchoolCity
    && a.highSchoolState == b.highSchoolState
    && a.highSchoolSourceUrl == b.highSchoolSourceUrl
    && a.highSchoolSourceName == b.highSchoolSourceName
    && a.position == b.position && a.jerseyNumber == b.jerseyNumber
    && a.height == b.height && a.weight == b.weight
    && a.headshotUrl == b.headshotUrl && a.bioUrl == b.bioUrl
    && a.createdAt == b.createdAt
  }

  /** Nothing outside the player's own row and its birth data changes. */
  lemma MergedFrame(t: Table, id: nat, d: SearchData, now: string)
    ensures var u := Merged(t, id, d, now);
      && u.Keys == t.Keys
      && (forall k :: k in t && k != id ==> u[k] == t[k])
      && (id in t ==> SameOutsideBirthData(u[id], t[id]))
  {
  }

  /** The metric height and the source URL are never written: the merge does
      not depend on them. */
  lemma MergedIgnoresHeightAndUrl(row: PlayerRow, d: SearchData, now: string, height: Option<string>, url: Option<string>)
    ensures var e := d.(heightMetric := height, sourceUrl := url);
      MergedRow(row, e, BirthplaceHometown(e), now) == MergedRow(row, d, BirthplaceHometown(d), now)
  {
  }

  /** The birthdate and the birthplace are overwritten exactly when the
      scraped value is truthy, whatever was stored. */
  lemma MergedOverwrites(row: PlayerRow, d: SearchData, now: string)
    ensures var m := MergedRow(row, d, BirthplaceHometown(d), now);
      && (Truthy(d.birthdate) ==> m.birthdate == d.birthdate)
      && (!Truthy(d.birthdate) ==> m.birthdate == row.birthdate)
      && (Truthy(d.birthplace) ==> m.birthplace == d.birthplace)
      && (!Truthy(d.birthplace) ==> m.birthplace == row.birthplace)
  {
  }

  /** A stored hometown part or citizenship, even an empty one, is kept; a
      NULL one is filled from a truthy scraped value. */
  lemma MergedFillsOnlyNull(row: PlayerRow, d: SearchData, now: string)
    ensures var m := MergedRow(row, d, BirthplaceHometown(d), now);
      && (row.hometownCity.Some? ==> m.hometownCity == row.hometownCity)
      && (row.hometownState.Some? ==> m.hometownState == row.hometownState)
      && (row.citizenship.Some? ==> m.citizenship == row.citizenship)
      && (row.citizenship.None? && Truthy(d.citizenship) ==> m.citizenship == d.citizenship)
      && (row.hometownCity.None? && Truthy(d.birthplace) && Truthy(ParseHometown(d.birthplace).0) ==>
            m.hometownCity == ParseHometown(d.birthplace).0)
  {
  }

  /** A birthplace "City, State" fills a NULL hometown with the trimmed city
      and the state's code. */
  lemma BirthplaceFillsHometown(row: PlayerRow, d: SearchData, now: string, i: nat)
    requires d.birthplace.Some? && i < |d.birthplace.value| && d.birthplace.value[i] == ','
    requires ',' !in d.birthplace.value[..i] && ',' !in d.birthplace.value[i + 1..]
    requires row.hometownCity.None? && row.hometownState.None?
    ensures var h := d.birthplace.value;
      var m := MergedRow(row, d, BirthplaceHometown(d), now);
      && (Strip(h[..i]) != [] ==> m.hometownCity == Some(Strip(h[..i])))
      && (StateCode(Strip(h[i + 1..])) != [] ==> m.hometownState == Some(StateCode(Strip(h[i + 1..]))))
  {
    HometownWithComma(d.birthplace.value, i, i);
  }

  /** With none of birthdate, birthplace and citizenship truthy the row is left
      as it was, `updated_at` included; otherwise `updated_at` is stamped. */
  lemma MergedStamp(t: Table, id: nat, d: SearchData, now: string)
    ensures !Truthy(d.birthdate) && !Truthy(d.birthplace) && !Truthy(d.citizenship) ==>
              Merged(t, id, d, now) == t
    ensures id in t && (Truthy(d.birthdate) || Truthy(d.birthplace) || Truthy(d.citizenship)) ==>
              Merged(t, id, d, now)[id].updatedAt == Some(now)
  {
    if !Truthy(d.birthdate) && !Truthy(d.birthplace) && !Truthy(d.citizenship) && id in t {
      assert MergedRow(t[id], d, BirthplaceHometown(d), now) == t[id];
    }
  }

  // ---------------------------------------------------------------------------
  // process_players_missing_data

  /** One iteration of the loop: the player's id, what `search_player`
      returned for it, and the CURRENT_TIMESTAMP its UPDATE would be stamped
      with (each statement evaluates its own). */
  type Entry = (nat, SearchData, string)

  /** The table after the loop's first `|ps|` players: each player whose search
      returned a non-empty dict is merged, in order. */
  function Updated(t: Table, ps: seq<Entry>): (u: Table)
    decreases |ps|
  {
    if ps == [] then t
    else
      var u := Updated(t, ps[..|ps| - 1]);
      var (id, d, now) := ps[|ps| - 1];
      if NonEmpty(d) then Merged(u, id, d, now) else u
  }

  /** How many of the searches returned a non-empty dict. */
  function NonEmptyCount(ps: seq<Entry>): (n: nat)
    decreases |ps|
  {
    if ps == [] then 0
    else NonEmptyCount(ps[..|ps| - 1]) + (if NonEmpty(ps[|ps| - 1].1) then 1 else 0)
  }

  /** The count never exceeds the number of players. */
  lemma {:induction false} NonEmptyCountBound(ps: seq<Entry>)
    ensures NonEmptyCount(ps) <= |ps|
    ensures NonEmptyCount(ps) == |ps| <==> forall i :: 0 <= i < |ps| ==> NonEmpty(ps[i].1)
    decreases |ps|
  {
    if ps != [] {
      var init := ps[..|ps| - 1];
      NonEmptyCountBound(init);
      assert forall i :: 0 <= i < |init| ==> init[i] == ps[i];
    }
  }

  /** The loop over the selected players: every non-empty dict is merged,
      with its own statement's timestamp, and counted. */
  method ProcessPlayersMissingData(t: Table, ps: seq<Entry>)
    returns (u: Table, updated: nat)
    ensures u == Updated(t, ps)
    ensures updated == NonEmptyCount(ps) && updated <= |ps|
  {
    u := t;
    updated := 0;
    for i := 0 to |ps|
      invariant u == Updated(t, ps[..i])
      invariant updated == NonEmptyCount(ps[..i])
    {
      assert ps[..i + 1][..i] == ps[..i];
      var (id, data, now) := ps[i];
      if NonEmpty(data) {
        u := UpdatePlayer(u, id, data, now);
        updated := updated + 1;
      }
    }
    assert ps[..|ps|] == ps;
    NonEmptyCountBound(ps);
  }

  /** A player counted as updated may see no change: a profile that yields only
      its URL and a height is counted, yet writes nothing. */
  lemma CountedWithoutChange(t: Table, id: nat, url: string, height: string, now: string)
    ensures var d := SearchData(None, None, None, Some(height), Some(url));
      NonEmptyCount([(id, d, now)]) == 1 && Updated(t, [(id, d, now)]) == t
  {
    var d := SearchData(None, None, None, Some(height), Some(url));
    MergedStamp(t, id, d, now);
    assert [(id, d, now)][..0] == [];
  }
}
