/** scripts/clean_highschool_names.py: lead-in text stripped from the high
    school names read from Grokipedia.  The rows the SELECT returns are a
    parameter; the eight substitutions, the UPDATE of each changed row and the
    count are modelled. */
module CleanNames {

  import opened Options
  import opened Ascii
  import opened Regex
  import opened Players

  /** The eight substitutions, in order; all but the fourth ignore case. */
  const CleanRules: seq<Rule> := [
    Rule([Begin, Alt(["He", "She"]), Plus(Space), Alt(["enrolled", "attended", "went"]), Plus(Space),
          Alt(["at", "to"]), Plus(Space)], true),
    Rule([Begin, One(UpperLetter), Plus(LowerLetter), Plus(Space), Alt(["competed", "played"]), Plus(Space),
          Alt(["for", "at", "varsity soccer at"]), Plus(Space)], true),
    Rule([Begin, Alt(["Transitioning", "Moving"]), Plus(Space), Lit("to"), Plus(Space), Lit("high"),
          Plus(Space), Lit("school"), Plus(Space), Lit("at"), Plus(Space)], true),
    Rule([Begin, Lit("At"), Plus(Space)], false),
    Rule([Begin, Lit("As a high school senior at"), Plus(Space)], true),
    Rule([Begin, One(UpperLetter), Plus(LowerLetter), Plus(Space), Lit("completed"), Plus(Space), Lit("his"),
          Plus(Space), Lit("early"), Plus(Space), Lit("education"), Plus(Space), Lit("at"), Plus(Space)], true),
    Rule([Begin, One(UpperLetter), Plus(LowerLetter), Plus(Space), Lit("played"), Plus(Space), Lit("varsity"),
          Plus(Space), Lit("soccer"), Plus(Space), Lit("at"), Plus(Space)], true),
    Rule([Begin, Lit("School"), Plus(Space), Lit("and"), Plus(Space)], true)
  ]

  /** A name after the eight substitutions. */
  function CleanName(hs: string): string {
    ApplyRules(CleanRules, hs)
  }

  lemma CleanRulesArePrefixRules()
    ensures forall k :: 0 <= k < |CleanRules| ==> PrefixRule(CleanRules[k])
  {
  }

  /** Every rule is anchored at the start, so a cleaned name is always a
      tail of the original. */
  lemma CleanNameIsSuffix(hs: string)
    ensures |CleanName(hs)| <= |hs| && CleanName(hs) == hs[|hs| - |CleanName(hs)|..]
  {
    CleanRulesArePrefixRules();
    ApplyPrefixRulesSuffix(CleanRules, hs);
  }

  /** The fourth rule is case-sensitive: it leaves a name that does not begin
      with a capital "A", such as "at ...", as it is. */
  lemma AtRuleCaseSensitive(s: string)
    requires s == [] || s[0] != 'A'
    ensures Sub(CleanRules[3].pat, s, CleanRules[3].ci) == s
  {
    var r := CleanRules[3];
    assert r.pat[1].words == ["At"];
    if s != [] {
      assert !SameChar(s[0], "At"[0], false);
    }
    assert !WordAt(s, 0, "At", false);
    NoLeadingWord(r.pat, s, r.ci);
    SubBeginAnchored(r.pat, s, r.ci);
  }

  /** The fourth rule removes a leading "At" and the whitespace after it. */
  lemma AtRuleStrips(spaces: string, rest: string)
    requires spaces != [] && forall i :: 0 <= i < |spaces| ==> IsSpace(spaces[i])
    requires rest == [] || !IsSpace(rest[0])
    ensures Sub(CleanRules[3].pat, "At" + spaces + rest, CleanRules[3].ci) == rest
  {
    var s := "At" + spaces + rest;
    var r := CleanRules[3];
    assert s[2 + |spaces|..] == rest;
    WordThenSpaces(r.pat, s, "At", |spaces|, false);
    SubBeginAnchored(r.pat, s, false);
  }

  /** The eight substitutions in turn. */
  method StripPrefixes(original: string) returns (hs: string)
    ensures hs == CleanName(original)
  {
    hs := original;
    for k := 0 to |CleanRules|
      invariant hs == ApplyRules(CleanRules[..k], original)
    {
      assert CleanRules[..k + 1][..k] == CleanRules[..k];
      hs := Sub(CleanRules[k].pat, hs, CleanRules[k].ci);
    }
    assert CleanRules[..|CleanRules|] == CleanRules;
  }

  /** `UPDATE players SET high_school = ? WHERE id = ?`: no row when the id is
      missing. */
  function SetHighSchool(t: Table, id: nat, hs: string): (u: Table)
    ensures u.Keys == t.Keys
  {
    if id in t then t[id := t[id].(highSchool := Some(hs))] else t
  }

  /** The table after the loop's first `|rows|` rows: each changed name
      written back. */
  function Cleaned(t: Table, rows: seq<(nat, string)>, clean: string -> string): (u: Table)
    ensures u.Keys == t.Keys
    decreases |rows|
  {
    if rows == [] then t
    else
      var u := Cleaned(t, rows[..|rows| - 1], clean);
      var (id, hs) := rows[|rows| - 1];
      if clean(hs) != hs then SetHighSchool(u, id, clean(hs)) else u
  }

  /** How many of the rows had a name that changed. */
  function ChangedCount(rows: seq<(nat, string)>, clean: string -> string): (n: nat)
    ensures n <= |rows|
    decreases |rows|
  {
    if rows == [] then 0
    else ChangedCount(rows[..|rows| - 1], clean) + (if clean(rows[|rows| - 1].1) != rows[|rows| - 1].1 then 1 else 0)
  }

  /** `clean_names`: each selected row's name cleaned, written back and
      counted when it changed. */
  method Clean(t: Table, rows: seq<(nat, string)>) returns (u: Table, cleanedCount: nat)
    ensures u == Cleaned(t, rows, CleanName)
    ensures cleanedCount == ChangedCount(rows, CleanName) && cleanedCount <= |rows|
  {
    u := t;
    cleanedCount := 0;
    for i := 0 to |rows|
      invariant u == Cleaned(t, rows[..i], CleanName)
      invariant cleanedCount == ChangedCount(rows[..i], CleanName)
    {
      CleanedPrefixStep(t, rows, i, CleanName);
      var (pid, hs) := rows[i];
      var original := hs;
      hs := StripPrefixes(hs);
      if hs != original {
        u := SetHighSchool(u, pid, hs);
        cleanedCount := cleanedCount + 1;
      }
    }
    assert rows[..|rows|] == rows;
  }

  /** One more row of the list: its name is written when it changed, and
      counted. */
  lemma CleanedPrefixStep(t: Table, rows: seq<(nat, string)>, i: nat, clean: string -> string)
    requires i < |rows|
    ensures Cleaned(t, rows[..i + 1], clean)
         == if clean(rows[i].1) != rows[i].1 then SetHighSchool(Cleaned(t, rows[..i], clean), rows[i].0, clean(rows[i].1))
            else Cleaned(t, rows[..i], clean)
    ensures ChangedCount(rows[..i + 1], clean) == ChangedCount(rows[..i], clean) + if clean(rows[i].1) != rows[i].1 then 1 else 0
  {
    assert rows[..i + 1][..i] == rows[..i];
  }

  /** What the SELECT returns: the id and name of every row, each once, with
      a non-NULL high school read from Grokipedia. */
  predicate Selection(t: Table, rows: seq<(nat, string)>) {
    && (forall i :: 0 <= i < |rows| ==>
          rows[i].0 in t && t[rows[i].0].highSchool == Some(rows[i].1)
          && t[rows[i].0].highSchoolSourceName == Some("Grokipedia"))
    && (forall i, j :: 0 <= i < j < |rows| ==> rows[i].0 != rows[j].0)
    && (forall id :: id in t && t[id].highSchool.Some? && t[id].highSchoolSourceName == Some("Grokipedia") ==>
          exists i :: 0 <= i < |rows| && rows[i].0 == id)
  }

  /** The ids whose row the loop changed. */
  function ChangedIds(t: Table, u: Table): set<nat>
    requires u.Keys == t.Keys
  {
    set id | id in t && u[id] != t[id]
  }

  /** Only the `high_school` column is written, and only in listed rows. */
  lemma {:induction false} CleanedFrame(t: Table, rows: seq<(nat, string)>, clean: string -> string)
    ensures forall id :: id in t ==>
              Cleaned(t, rows, clean)[id] == t[id].(highSchool := Cleaned(t, rows, clean)[id].highSchool)
    ensures forall id :: id in t && (forall i :: 0 <= i < |rows| ==> rows[i].0 != id) ==>
              Cleaned(t, rows, clean)[id] == t[id]
    decreases |rows|
  {
    if rows != [] {
      var init := rows[..|rows| - 1];
      assert forall i :: 0 <= i < |init| ==> init[i] == rows[i];
      CleanedFrame(t, init, clean);
    }
  }

  /** Each listed row ends with its cleaned name, changed or not. */
  lemma {:induction false} CleanedWritten(t: Table, rows: seq<(nat, string)>, clean: string -> string)
    requires forall i :: 0 <= i < |rows| ==> rows[i].0 in t && t[rows[i].0].highSchool == Some(rows[i].1)
    requires forall i, j :: 0 <= i < j < |rows| ==> rows[i].0 != rows[j].0
    ensures forall i :: 0 <= i < |rows| ==> Cleaned(t, rows, clean)[rows[i].0].highSchool == Some(clean(rows[i].1))
    decreases |rows|
  {
    if rows != [] {
      var init := rows[..|rows| - 1];
      var (id, hs) := rows[|rows| - 1];
      assert forall i :: 0 <= i < |init| ==> init[i] == rows[i];
      CleanedWritten(t, init, clean);
      CleanedFrame(t, init, clean);
      assert forall i :: 0 <= i < |init| ==> init[i].0 != id;
      assert Cleaned(t, init, clean)[id] == t[id];
    }
  }

  /** Only the `high_school` column of a listed row is written, and it is
      written with the cleaned name exactly when that differs. */
  lemma CleanedRows(t: Table, rows: seq<(nat, string)>, clean: string -> string)
    requires forall i :: 0 <= i < |rows| ==> rows[i].0 in t && t[rows[i].0].highSchool == Some(rows[i].1)
    requires forall i, j :: 0 <= i < j < |rows| ==> rows[i].0 != rows[j].0
    ensures forall id :: id in t ==>
              Cleaned(t, rows, clean)[id] == t[id].(highSchool := Cleaned(t, rows, clean)[id].highSchool)
    ensures forall id :: id in t && (forall i :: 0 <= i < |rows| ==> rows[i].0 != id) ==>
              Cleaned(t, rows, clean)[id] == t[id]
    ensures forall i :: 0 <= i < |rows| ==> Cleaned(t, rows, clean)[rows[i].0].highSchool == Some(clean(rows[i].1))
  {
    CleanedFrame(t, rows, clean);
    CleanedWritten(t, rows, clean);
  }

  lemma CleanedStep(t: Table, rows: seq<(nat, string)>, clean: string -> string)
    requires rows != []
    requires rows[|rows| - 1].0 in t && Cleaned(t, rows[..|rows| - 1], clean)[rows[|rows| - 1].0] == t[rows[|rows| - 1].0]
    requires t[rows[|rows| - 1].0].highSchool == Some(rows[|rows| - 1].1)
    ensures forall k :: k in t && k != rows[|rows| - 1].0 ==>
              Cleaned(t, rows, clean)[k] == Cleaned(t, rows[..|rows| - 1], clean)[k]
    ensures (Cleaned(t, rows, clean)[rows[|rows| - 1].0] != t[rows[|rows| - 1].0]) <==>
            (clean(rows[|rows| - 1].1) != rows[|rows| - 1].1)
  {
  }

  /** One more written row changes the set of changed ids by at most that
      row. */
  lemma ChangedIdsStep(t: Table, u: Table, v: Table, id: nat)
    requires u.Keys == t.Keys && v.Keys == t.Keys && id in t && u[id] == t[id]
    requires forall k :: k in t && k != id ==> v[k] == u[k]
    ensures ChangedIds(t, v) == ChangedIds(t, u) + (if v[id] != t[id] then {id} else {})
    ensures id !in ChangedIds(t, u)
  {
  }

  /** The count is the number of rows the loop changed. */
  lemma {:induction false} CountIsChangedRows(t: Table, rows: seq<(nat, string)>, clean: string -> string)
    requires forall i :: 0 <= i < |rows| ==> rows[i].0 in t && t[rows[i].0].highSchool == Some(rows[i].1)
    requires forall i, j :: 0 <= i < j < |rows| ==> rows[i].0 != rows[j].0
    ensures ChangedCount(rows, clean) == |ChangedIds(t, Cleaned(t, rows, clean))|
    decreases |rows|
  {
    if rows == [] {
      assert ChangedIds(t, t) == {};
    } else {
      var init := rows[..|rows| - 1];
      var (id, hs) := rows[|rows| - 1];
      assert forall i :: 0 <= i < |init| ==> init[i] == rows[i];
      CountIsChangedRows(t, init, clean);
      CleanedFrame(t, init, clean);
      assert forall i :: 0 <= i < |init| ==> init[i].0 != id;
      var u := Cleaned(t, init, clean);
      var v := Cleaned(t, rows, clean);
      assert u[id] == t[id];
      CleanedStep(t, rows, clean);
      ChangedIdsStep(t, u, v, id);
      assert ChangedCount(rows, clean) == ChangedCount(init, clean) + (if clean(hs) != hs then 1 else 0);
    }
  }

  /** Over the rows the SELECT returns: rows not read from Grokipedia or
      without a school are untouched, a selected row changes exactly when its
      cleaned name differs, and the count is the number of changed rows. */
  lemma CleanSelected(t: Table, rows: seq<(nat, string)>, clean: string -> string)
    requires Selection(t, rows)
    ensures var u := Cleaned(t, rows, clean);
      && (forall id :: id in t && (t[id].highSchool.None? || t[id].highSchoolSourceName != Some("Grokipedia")) ==>
            u[id] == t[id])
      && (forall i :: 0 <= i < |rows| ==> (u[rows[i].0] != t[rows[i].0] <==> clean(rows[i].1) != rows[i].1))
      && ChangedCount(rows, clean) == |ChangedIds(t, u)|
  {
    CleanedRows(t, rows, clean);
    CountIsChangedRows(t, rows, clean);
  }
}
