/** The `players` table, as a map from row id to row, and the statement and
    loop the three high-school scrapers share: `update_player_high_school`
    and the loop that counts the players a school was found for. */
module Players {

  import opened Options
  import opened HighSchool

  /** One row of `players`, every column but the id (the map key).  A NULL
      column is None. */
  datatype PlayerRow = PlayerRow(
    team: Option<string>,
    season: Option<int>,
    firstName: Option<string>,
    lastName: Option<string>,
    hometownCity: Option<string>,
    hometownState: Option<string>,
    highSchool: Option<string>,
    highSchoolCity: Option<string>,
    highSchoolState: Option<string>,
    highSchoolSourceUrl: Option<string>,
    highSchoolSourceName: Option<string>,
    position: Option<string>,
    jerseyNumber: Option<int>,
    height: Option<string>,
    weight: Option<int>,
    birthdate: Option<string>,
    birthplace: Option<string>,
    citizenship: Option<string>,
    headshotUrl: Option<string>,
    bioUrl: Option<string>,
    createdAt: Option<string>,
    updatedAt: Option<string>)

  type Table = map<nat, PlayerRow>

  /** Every column outside the high-school group and `updated_at` agrees. */
  predicate SameExceptHighSchool(a: PlayerRow, b: PlayerRow) {
    && a.team == b.team && a.season == b.season
    && a.firstName == b.firstName && a.lastName == b.lastName
    && a.hometownCity == b.hometownCity && a.hometownState == b.hometownState
    && a.position == b.position && a.jerseyNumber == b.jerseyNumber
    && a.height == b.height && a.weight == b.weight
    && a.birthdate == b.birthdate && a.birthplace == b.birthplace
    && a.citizenship == b.citizenship && a.headshotUrl == b.headshotUrl
    && a.bioUrl == b.bioUrl && a.createdAt == b.createdAt
  }

  /** `update_player_high_school`: the five high-school columns are
      overwritten with the result, even with NULL, and `updated_at` is
      stamped with the statement's CURRENT_TIMESTAMP `now`; a missing id
      matches no row. */
  function UpdateHighSchool(t: Table, id: nat, r: HighSchoolResult, now: string): (u: Table)
    ensures u.Keys == t.Keys
    ensures forall k :: k in t && k != id ==> u[k] == t[k]
    ensures id in t ==>
              && u[id].highSchool == Some(r.highSchool)
              && u[id].highSchoolCity == r.city && u[id].highSchoolState == r.state
              && u[id].highSchoolSourceUrl == Some(r.sourceUrl)
              && u[id].highSchoolSourceName == Some(r.sourceName)
              && u[id].updatedAt == Some(now)
              && SameExceptHighSchool(u[id], t[id])
  {
    if id !in t then t
    else t[id := t[id].(highSchool := Some(r.highSchool), highSchoolCity := r.city,
                        highSchoolState := r.state, highSchoolSourceUrl := Some(r.sourceUrl),
                        highSchoolSourceName := Some(r.sourceName), updatedAt := Some(now))]
  }

  /** Writing the same result twice at the same time is writing it once. */
  lemma UpdateHighSchoolIdempotent(t: Table, id: nat, r: HighSchoolResult, now: string)
    ensures UpdateHighSchool(UpdateHighSchool(t, id, r, now), id, r, now) == UpdateHighSchool(t, id, r, now)
  {
  }

  /** The later of two writes to one row wins. */
  lemma UpdateHighSchoolLastWins(t: Table, id: nat, r1: HighSchoolResult, r2: HighSchoolResult, now1: string, now2: string)
    ensures UpdateHighSchool(UpdateHighSchool(t, id, r1, now1), id, r2, now2) == UpdateHighSchool(t, id, r2, now2)
  {
  }

  /** One iteration of the loop: the player's id, what `find_high_school`
      returned for it, and the CURRENT_TIMESTAMP its UPDATE would be stamped
      with (each statement evaluates its own). */
  type Entry = (nat, Option<HighSchoolResult>, string)

  /** The table after the loop's first `|ps|` players: each player the search
      found a school for has it written, in order. */
  function Recorded(t: Table, ps: seq<Entry>): (u: Table)
    ensures u.Keys == t.Keys
    decreases |ps|
  {
    if ps == [] then t
    else
      var u := Recorded(t, ps[..|ps| - 1]);
      var (id, found, now) := ps[|ps| - 1];
      if found.Some? then UpdateHighSchool(u, id, found.value, now) else u
  }

  /** How many of the players the search found a school for. */
  function FoundCount(ps: seq<Entry>): (n: nat)
    ensures n <= |ps|
    decreases |ps|
  {
    if ps == [] then 0
    else FoundCount(ps[..|ps| - 1]) + (if ps[|ps| - 1].1.Some? then 1 else 0)
  }

  /** The loop over the selected players: each result found is written, with
      its own statement's timestamp, and counted. */
  method ProcessPlayers(t: Table, ps: seq<Entry>)
    returns (u: Table, found: nat)
    ensures u == Recorded(t, ps)
    ensures found == FoundCount(ps) && found <= |ps|
  {
    u := t;
    found := 0;
    for i := 0 to |ps|
      invariant u == Recorded(t, ps[..i])
      invariant found == FoundCount(ps[..i])
    {
      assert ps[..i + 1][..i] == ps[..i];
      var (id, result, now) := ps[i];
      if result.Some? {
        u := UpdateHighSchool(u, id, result.value, now);
        found := found + 1;
      }
    }
    assert ps[..|ps|] == ps;
  }

  /** The loop leaves the rows of players it found no school for untouched,
      and changes no column outside the high-school group and `updated_at`. */
  lemma RecordedFrame(t: Table, ps: seq<Entry>)
    ensures forall k :: k in t && (forall i :: 0 <= i < |ps| && ps[i].0 == k ==> ps[i].1.None?) ==>
              Recorded(t, ps)[k] == t[k]
    ensures forall k :: k in t ==> SameExceptHighSchool(Recorded(t, ps)[k], t[k])
  {
    RecordedUntouched(t, ps);
    RecordedSameExcept(t, ps);
  }

  lemma {:induction false} RecordedUntouched(t: Table, ps: seq<Entry>)
    ensures forall k :: k in t && (forall i :: 0 <= i < |ps| && ps[i].0 == k ==> ps[i].1.None?) ==>
              Recorded(t, ps)[k] == t[k]
    decreases |ps|
  {
    if ps != [] {
      var init := ps[..|ps| - 1];
      RecordedUntouched(t, init);
      assert forall i :: 0 <= i < |init| ==> init[i] == ps[i];
    }
  }

  lemma {:induction false} RecordedSameExcept(t: Table, ps: seq<Entry>)
    ensures forall k :: k in t ==> SameExceptHighSchool(Recorded(t, ps)[k], t[k])
    decreases |ps|
  {
    if ps != [] {
      RecordedSameExcept(t, ps[..|ps| - 1]);
    }
  }

  /** A player whose last entry in the loop found a school ends with that
      school, and that statement's timestamp, whatever earlier entries wrote. */
  lemma {:induction false} RecordedLastWins(t: Table, ps: seq<Entry>, j: nat)
    requires j < |ps| && ps[j].0 in t && ps[j].1.Some?
    requires forall i :: j < i < |ps| ==> ps[i].0 != ps[j].0 || ps[i].1.None?
    ensures Recorded(t, ps)[ps[j].0].highSchool == Some(ps[j].1.value.highSchool)
    ensures Recorded(t, ps)[ps[j].0].highSchoolSourceName == Some(ps[j].1.value.sourceName)
    ensures Recorded(t, ps)[ps[j].0].updatedAt == Some(ps[j].2)
    decreases |ps|
  {
    var init := ps[..|ps| - 1];
    RecordedSameExcept(t, init);
    if j < |ps| - 1 {
      assert forall i :: j < i < |init| ==> init[i] == ps[i];
      RecordedLastWins(t, init, j);
    }
  }
}
