/** The fragment of Python's `re` that the clean-up rules use: anchors, `\s+`,
    single-letter classes, `[a-z]+`, optional characters and alternations of
    literal words, with or without `re.IGNORECASE`.  `Match` follows the
    backtracking order of Python's engine (greedy runs longest first,
    alternatives left to right); `Spans` is the language of a pattern stated
    declaratively, and `Match` is proved sound and complete for it. */
module Regex {

  import opened Options
  import opened Ascii

  /** A set of characters matched by one position of a pattern. */
  datatype Class =
    | Space              // \s
    | UpperLetter        // [A-Z]
    | LowerLetter        // [a-z]
    | Char(c: char)      // a literal character, such as \. or a space

  datatype Atom =
    | Begin                    // ^ (no MULTILINE: only at index 0)
    | End                      // $ (taken as the end of the string)
    | One(cls: Class)          // exactly one character of the class
    | Plus(cls: Class)         // one or more, greedy
    | Opt(cls: Class)          // zero or one, greedy
    | Alt(words: seq<string>)  // (?:w1|w2|...), tried left to right

  type Pattern = seq<Atom>

  /** A single literal word, `(?:w)`. */
  function Lit(w: string): Atom {
    Alt([w])
  }

  /** Character equality, ASCII case-folded when `ci` (re.IGNORECASE). */
  predicate SameChar(a: char, b: char, ci: bool) {
    if ci then LowerChar(a) == LowerChar(b) else a == b
  }

  /** Class membership; under re.IGNORECASE `[A-Z]` and `[a-z]` both accept
      every ASCII letter. */
  predicate InClass(cls: Class, c: char, ci: bool) {
    match cls
    case Space => IsSpace(c)
    case UpperLetter => if ci then IsLetter(c) else IsUpper(c)
    case LowerLetter => if ci then IsLetter(c) else IsLower(c)
    case Char(d) => SameChar(c, d, ci)
  }

  /** Every character of `s[i..m]` is in the class. */
  predicate AllIn(cls: Class, s: string, i: nat, m: nat, ci: bool)
    requires i <= m <= |s|
  {
    forall j :: i <= j < m ==> InClass(cls, s[j], ci)
  }

  /** The word `w` occurs at index `i` of `s`. */
  predicate WordAt(s: string, i: nat, w: string, ci: bool) {
    i + |w| <= |s| && forall j :: 0 <= j < |w| ==> SameChar(s[i + j], w[j], ci)
  }

  /** The atoms of `p` from index `j` on can match `s[i..e]` (anchors are read
      against the whole of `s`). */
  ghost predicate SpansFrom(p: Pattern, j: nat, s: string, i: nat, e: nat, ci: bool)
    decreases |p| - j
  {
    if j >= |p| then i == e
    else match p[j]
      case Begin => i == 0 && SpansFrom(p, j + 1, s, i, e, ci)
      case End => i == |s| && SpansFrom(p, j + 1, s, i, e, ci)
      case One(c) => i < |s| && InClass(c, s[i], ci) && SpansFrom(p, j + 1, s, i + 1, e, ci)
      case Plus(c) =>
        exists m :: i < m <= |s| && AllIn(c, s, i, m, ci) && SpansFrom(p, j + 1, s, m, e, ci)
      case Opt(c) =>
        (i < |s| && InClass(c, s[i], ci) && SpansFrom(p, j + 1, s, i + 1, e, ci)) || SpansFrom(p, j + 1, s, i, e, ci)
      case Alt(ws) =>
        exists k :: 0 <= k < |ws| && WordAt(s, i, ws[k], ci) && SpansFrom(p, j + 1, s, i + |ws[k]|, e, ci)
  }

  /** The pattern `p` can match `s[i..e]`. */
  ghost predicate Spans(p: Pattern, s: string, i: nat, e: nat, ci: bool) {
    SpansFrom(p, 0, s, i, e, ci)
  }

  /** The length of the run of class characters starting at `i`. */
  function ClassRun(cls: Class, s: string, i: nat, ci: bool): (n: nat)
    requires i <= |s|
    ensures i + n <= |s| && AllIn(cls, s, i, i + n, ci)
    ensures i + n < |s| ==> !InClass(cls, s[i + n], ci)
    decreases |s| - i
  {
    if i == |s| || !InClass(cls, s[i], ci) then 0 else 1 + ClassRun(cls, s, i + 1, ci)
  }

  /** Where a match of the atoms of `p` from index `j` on, starting at `i`,
      ends, trying the choices in the order Python's engine does; None when
      there is no such match. */
  function MatchFrom(p: Pattern, j: nat, s: string, i: nat, ci: bool): (r: Option<nat>)
    requires i <= |s|
    ensures r.Some? ==> i <= r.value <= |s| && SpansFrom(p, j, s, i, r.value, ci)
    ensures r.None? ==> forall e :: !SpansFrom(p, j, s, i, e, ci)
    decreases |p| - j, 1, 0
  {
    if j >= |p| then Some(i)
    else match p[j]
      case Begin => if i == 0 then MatchFrom(p, j + 1, s, i, ci) else None
      case End => if i == |s| then MatchFrom(p, j + 1, s, i, ci) else None
      case One(c) => if i < |s| && InClass(c, s[i], ci) then MatchFrom(p, j + 1, s, i + 1, ci) else None
      case Plus(c) =>
        var n := ClassRun(c, s, i, ci);
        if n == 0 then None else TryRun(p, j + 1, s, i, n, ci)
      case Opt(c) =>
        if i < |s| && InClass(c, s[i], ci) then
          var r := MatchFrom(p, j + 1, s, i + 1, ci);
          if r.Some? then r else MatchFrom(p, j + 1, s, i, ci)
        else MatchFrom(p, j + 1, s, i, ci)
      case Alt(ws) => TryWords(p, j, s, i, 0, ci)
  }

  /** A greedy run at atom `next - 1`: the atoms from `next` on are tried
      after `n`, `n - 1`, ..., 1 characters of the run. */
  function TryRun(p: Pattern, next: nat, s: string, i: nat, n: nat, ci: bool): (r: Option<nat>)
    requires 0 < next <= |p| && p[next - 1].Plus?
    requires 1 <= n && i + n <= |s| && AllIn(p[next - 1].cls, s, i, i + n, ci)
    ensures r.Some? ==> i <= r.value <= |s| && SpansFrom(p, next - 1, s, i, r.value, ci)
    ensures r.None? ==> forall m, e :: i < m <= i + n ==> !SpansFrom(p, next, s, m, e, ci)
    decreases |p| - next + 1, 0, n
  {
    var r := MatchFrom(p, next, s, i + n, ci);
    if r.Some? then r
    else if n == 1 then None
    else TryRun(p, next, s, i, n - 1, ci)
  }

  /** An alternation: the words from index `k` on are tried in order, each
      followed by the rest of the pattern. */
  function TryWords(p: Pattern, j: nat, s: string, i: nat, k: nat, ci: bool): (r: Option<nat>)
    requires j < |p| && p[j].Alt? && i <= |s| && k <= |p[j].words|
    ensures r.Some? ==> i <= r.value <= |s| && SpansFrom(p, j, s, i, r.value, ci)
    ensures r.None? ==> forall w :: k <= w < |p[j].words| && WordAt(s, i, p[j].words[w], ci) ==>
                          MatchFrom(p, j + 1, s, i + |p[j].words[w]|, ci).None?
    decreases |p| - j, 0, |p[j].words| - k
  {
    var ws := p[j].words;
    if k == |ws| then None
    else if WordAt(s, i, ws[k], ci) then
      var r := MatchFrom(p, j + 1, s, i + |ws[k]|, ci);
      if r.Some? then r else TryWords(p, j, s, i, k + 1, ci)
    else TryWords(p, j, s, i, k + 1, ci)
  }

  /** Where a match of `p` starting at `i` ends (`re.match` at `i`). */
  function Match(p: Pattern, s: string, i: nat, ci: bool): (r: Option<nat>)
    requires i <= |s|
    ensures r.Some? ==> i <= r.value <= |s| && Spans(p, s, i, r.value, ci)
    ensures r.None? ==> forall e :: !Spans(p, s, i, e, ci)
  {
    MatchFrom(p, 0, s, i, ci)
  }

  /** `re.search` from index `k`: the leftmost start with a match, and where
      that match ends. */
  function SearchFrom(p: Pattern, s: string, k: nat, ci: bool): (r: Option<(nat, nat)>)
    requires k <= |s|
    ensures r.Some? ==> k <= r.value.0 <= r.value.1 <= |s| && Spans(p, s, r.value.0, r.value.1, ci)
    ensures r.Some? ==> forall j, e :: k <= j < r.value.0 ==> !Spans(p, s, j, e, ci)
    ensures r.None? ==> forall j, e :: k <= j <= |s| ==> !Spans(p, s, j, e, ci)
    decreases |s| - k
  {
    match Match(p, s, k, ci)
    case Some(e) => Some((k, e))
    case None => if k == |s| then None else SearchFrom(p, s, k + 1, ci)
  }

  /** `re.sub(p, "", s[k..])`: every non-overlapping match, leftmost first,
      removed. */
  function SubFrom(p: Pattern, s: string, k: nat, ci: bool): (r: string)
    requires k <= |s|
    decreases |s| - k
  {
    match SearchFrom(p, s, k, ci)
    case None => s[k..]
    case Some((a, e)) =>
      if e > a then s[k..a] + SubFrom(p, s, e, ci)
      else if a == |s| then s[k..a]
      else s[k..a] + [s[a]] + SubFrom(p, s, a + 1, ci)
  }

  /** `re.sub(p, "", s, flags=re.IGNORECASE if ci else 0)`. */
  function Sub(p: Pattern, s: string, ci: bool): string {
    SubFrom(p, s, 0, ci)
  }

  /** A substitution rule: a pattern and whether it is case-insensitive. */
  datatype Rule = Rule(pat: Pattern, ci: bool)

  /** The rules applied once each, in order, each to the previous result. */
  function ApplyRules(rules: seq<Rule>, s: string): string
    decreases |rules|
  {
    if rules == [] then s
    else
      var last := rules[|rules| - 1];
      Sub(last.pat, ApplyRules(rules[..|rules| - 1], s), last.ci)
  }

  // ---------------------------------------------------------------------------
  // Anchored rules

  /** A pattern that ends with `$` can only match up to the end of the string. */
  lemma {:induction false} SpansToEnd(p: Pattern, j: nat, s: string, i: nat, e: nat, ci: bool)
    requires j < |p| && p[|p| - 1] == End && SpansFrom(p, j, s, i, e, ci)
    ensures e == |s|
    decreases |p| - j
  {
    if j == |p| - 1 {
      assert p[j] == End;
    } else {
      match p[j]
      case Begin => SpansToEnd(p, j + 1, s, i, e, ci);
      case End => SpansToEnd(p, j + 1, s, i, e, ci);
      case One(c) => SpansToEnd(p, j + 1, s, i + 1, e, ci);
      case Plus(c) =>
        var m :| i < m <= |s| && AllIn(c, s, i, m, ci) && SpansFrom(p, j + 1, s, m, e, ci);
        SpansToEnd(p, j + 1, s, m, e, ci);
      case Opt(c) =>
        if i < |s| && InClass(c, s[i], ci) && SpansFrom(p, j + 1, s, i + 1, e, ci) {
          SpansToEnd(p, j + 1, s, i + 1, e, ci);
        } else {
          SpansToEnd(p, j + 1, s, i, e, ci);
        }
      case Alt(ws) =>
        var k :| 0 <= k < |ws| && WordAt(s, i, ws[k], ci) && SpansFrom(p, j + 1, s, i + |ws[k]|, e, ci);
        SpansToEnd(p, j + 1, s, i + |ws[k]|, e, ci);
    }
  }

  /** An atom that consumes at least one character. */
  predicate Consuming(a: Atom) {
    a.One? || a.Plus? || (a.Alt? && forall k :: 0 <= k < |a.words| ==> a.words[k] != [])
  }

  /** A match that begins with a consuming atom starts inside the string. */
  lemma SpansConsumes(p: Pattern, j: nat, s: string, i: nat, e: nat, ci: bool)
    requires j < |p| && Consuming(p[j]) && SpansFrom(p, j, s, i, e, ci)
    ensures i < |s|
  {
    match p[j]
    case One(c) =>
    case Plus(c) =>
    case Alt(ws) =>
      var k :| 0 <= k < |ws| && WordAt(s, i, ws[k], ci) && SpansFrom(p, j + 1, s, i + |ws[k]|, e, ci);
      assert ws[k] != [];
  }

  /** A `^...`-anchored substitution removes the prefix matched at index 0,
      or nothing when there is no match there. */
  lemma SubBeginAnchored(p: Pattern, s: string, ci: bool)
    requires |p| > 1 && p[0] == Begin && Consuming(p[1])
    ensures Match(p, s, 0, ci).None? ==> Sub(p, s, ci) == s
    ensures Match(p, s, 0, ci).Some? ==> Sub(p, s, ci) == s[Match(p, s, 0, ci).value..]
  {
    var m := Match(p, s, 0, ci);
    if m.Some? {
      var e := m.value;
      assert SpansFrom(p, 1, s, 0, e, ci);
      // A non-empty match: the search resumes at e > 0, where ^ cannot match.
      SpansNotEmpty(p, 1, s, 0, ci);
      assert e > 0;
      NoBeginMatchAfter(p, s, e, ci);
      assert SubFrom(p, s, e, ci) == s[e..];
      assert SearchFrom(p, s, 0, ci) == Some((0, e));
    } else {
      NoBeginMatchAfter(p, s, 0, ci);
    }
  }

  /** A consuming atom never spans an empty piece. */
  lemma SpansNotEmpty(p: Pattern, j: nat, s: string, i: nat, ci: bool)
    requires j < |p| && Consuming(p[j])
    ensures !SpansFrom(p, j, s, i, i, ci)
  {
    if SpansFrom(p, j, s, i, i, ci) {
      match p[j]
      case One(c) => SpansAdvance(p, j + 1, s, i + 1, i, ci);
      case Plus(c) =>
        var m :| i < m <= |s| && AllIn(c, s, i, m, ci) && SpansFrom(p, j + 1, s, m, i, ci);
        SpansAdvance(p, j + 1, s, m, i, ci);
      case Alt(ws) =>
        var k :| 0 <= k < |ws| && WordAt(s, i, ws[k], ci) && SpansFrom(p, j + 1, s, i + |ws[k]|, i, ci);
        assert ws[k] != [];
        SpansAdvance(p, j + 1, s, i + |ws[k]|, i, ci);
    }
  }

  /** Matching never moves backwards. */
  lemma {:induction false} SpansAdvance(p: Pattern, j: nat, s: string, i: nat, e: nat, ci: bool)
    requires SpansFrom(p, j, s, i, e, ci)
    ensures i <= e
    decreases |p| - j
  {
    if j < |p| {
      match p[j]
      case Begin => SpansAdvance(p, j + 1, s, i, e, ci);
      case End => SpansAdvance(p, j + 1, s, i, e, ci);
      case One(c) => SpansAdvance(p, j + 1, s, i + 1, e, ci);
      case Plus(c) =>
        var m :| i < m <= |s| && AllIn(c, s, i, m, ci) && SpansFrom(p, j + 1, s, m, e, ci);
        SpansAdvance(p, j + 1, s, m, e, ci);
      case Opt(c) =>
        if i < |s| && InClass(c, s[i], ci) && SpansFrom(p, j + 1, s, i + 1, e, ci) {
          SpansAdvance(p, j + 1, s, i + 1, e, ci);
        } else {
          SpansAdvance(p, j + 1, s, i, e, ci);
        }
      case Alt(ws) =>
        var k :| 0 <= k < |ws| && WordAt(s, i, ws[k], ci) && SpansFrom(p, j + 1, s, i + |ws[k]|, e, ci);
        SpansAdvance(p, j + 1, s, i + |ws[k]|, e, ci);
    }
  }

  /** After index 0 a `^`-anchored pattern finds nothing, so the rest of the
      string is copied unchanged. */
  lemma NoBeginMatchAfter(p: Pattern, s: string, k: nat, ci: bool)
    requires |p| > 1 && p[0] == Begin && Consuming(p[1]) && k <= |s|
    requires k > 0 || Match(p, s, 0, ci).None?
    ensures SubFrom(p, s, k, ci) == s[k..]
  {
    var r := SearchFrom(p, s, k, ci);
    if r.Some? {
      assert false;
    }
  }

  /** A `$`-anchored substitution removes the match that starts leftmost
      (it necessarily runs to the end of the string), or nothing. */
  lemma SubEndAnchored(p: Pattern, s: string, ci: bool)
    requires |p| > 1 && p[|p| - 1] == End && Consuming(p[0])
    ensures SearchFrom(p, s, 0, ci).None? ==> Sub(p, s, ci) == s
    ensures SearchFrom(p, s, 0, ci).Some? ==> Sub(p, s, ci) == s[..SearchFrom(p, s, 0, ci).value.0]
  {
    var r := SearchFrom(p, s, 0, ci);
    if r.Some? {
      var (a, e) := r.value;
      SpansToEnd(p, 0, s, a, e, ci);
      SpansNotEmpty(p, 0, s, a, ci);
      assert e > a;
      var t := SearchFrom(p, s, e, ci);
      if t.Some? {
        SpansConsumes(p, 0, s, t.value.0, t.value.1, ci);
      }
      assert SubFrom(p, s, e, ci) == [];
    }
  }

  /** The `$`-anchored substitution rewritten without the search: it keeps
      exactly the part of `s` before the leftmost index from which `p` matches
      the rest of the string. */
  lemma SubEndAnchoredSpec(p: Pattern, s: string, ci: bool)
    requires |p| > 1 && p[|p| - 1] == End && Consuming(p[0])
    ensures (forall j :: 0 <= j <= |s| ==> !Spans(p, s, j, |s|, ci)) ==> Sub(p, s, ci) == s
    ensures forall k :: 0 <= k <= |s| && Spans(p, s, k, |s|, ci) && (forall j :: 0 <= j < k ==> !Spans(p, s, j, |s|, ci))
                ==> Sub(p, s, ci) == s[..k]
  {
    SubEndAnchored(p, s, ci);
    var r := SearchFrom(p, s, 0, ci);
    if r.Some? {
      SpansToEnd(p, 0, s, r.value.0, r.value.1, ci);
      assert Spans(p, s, r.value.0, |s|, ci);
    }
    forall k | 0 <= k <= |s| && Spans(p, s, k, |s|, ci) && (forall j :: 0 <= j < k ==> !Spans(p, s, j, |s|, ci))
      ensures Sub(p, s, ci) == s[..k]
    {
      assert r.Some?;
      assert r.value.0 == k;
    }
  }

  /** A `$`-anchored rule whose match cannot be empty. */
  predicate SuffixRule(r: Rule) {
    |r.pat| > 1 && r.pat[|r.pat| - 1] == End && Consuming(r.pat[0])
  }

  /** A `^`-anchored rule whose match cannot be empty. */
  predicate PrefixRule(r: Rule) {
    |r.pat| > 1 && r.pat[0] == Begin && Consuming(r.pat[1])
  }

  /** Suffix rules only ever cut the string short: the result is a prefix. */
  lemma {:induction false} ApplySuffixRulesPrefix(rules: seq<Rule>, s: string)
    requires forall k :: 0 <= k < |rules| ==> SuffixRule(rules[k])
    ensures |ApplyRules(rules, s)| <= |s| && ApplyRules(rules, s) == s[..|ApplyRules(rules, s)|]
    decreases |rules|
  {
    if rules != [] {
      var init := rules[..|rules| - 1];
      var last := rules[|rules| - 1];
      ApplySuffixRulesPrefix(init, s);
      var t := ApplyRules(init, s);
      SubEndAnchored(last.pat, t, last.ci);
    }
  }

  /** Prefix rules only ever drop a front part: the result is a suffix. */
  lemma {:induction false} ApplyPrefixRulesSuffix(rules: seq<Rule>, s: string)
    requires forall k :: 0 <= k < |rules| ==> PrefixRule(rules[k])
    ensures |ApplyRules(rules, s)| <= |s| && ApplyRules(rules, s) == s[|s| - |ApplyRules(rules, s)|..]
    decreases |rules|
  {
    if rules != [] {
      var init := rules[..|rules| - 1];
      var last := rules[|rules| - 1];
      ApplyPrefixRulesSuffix(init, s);
      var t := ApplyRules(init, s);
      SubBeginAnchored(last.pat, t, last.ci);
      var u := ApplyRules(rules, s);
      var m := Match(last.pat, t, 0, last.ci);
      if m.Some? {
        assert u == t[m.value..];
      } else {
        assert u == t;
      }
      SuffixOfSuffix(s, t, u);
    }
  }

  lemma SuffixOfSuffix(s: string, t: string, u: string)
    requires |t| <= |s| && t == s[|s| - |t|..]
    requires |u| <= |t| && u == t[|t| - |u|..]
    ensures u == s[|s| - |u|..]
  {
  }

  /** A match of a pattern that starts with `\s+` starts at a whitespace
      character. */
  lemma SpansStartsWithSpace(p: Pattern, s: string, i: nat, e: nat, ci: bool)
    requires |p| > 0 && p[0] == Plus(Space) && Spans(p, s, i, e, ci)
    ensures i < |s| && IsSpace(s[i])
  {
    var m :| i < m <= |s| && AllIn(Space, s, i, m, ci) && SpansFrom(p, 1, s, m, e, ci);
    assert InClass(Space, s[i], ci);
  }

  /** `^(?:w1|w2|...)...` cannot match a string that starts with none of the
      words. */
  lemma NoLeadingWord(p: Pattern, s: string, ci: bool)
    requires |p| > 1 && p[0] == Begin && p[1].Alt?
    requires forall k :: 0 <= k < |p[1].words| ==> !WordAt(s, 0, p[1].words[k], ci)
    ensures Match(p, s, 0, ci).None?
  {
  }

  /** The greedy run of a class is exactly `n` long when `n` characters of the
      class are followed by one outside it or by the end. */
  lemma ClassRunExact(cls: Class, s: string, i: nat, n: nat, ci: bool)
    requires i + n <= |s| && AllIn(cls, s, i, i + n, ci)
    requires i + n == |s| || !InClass(cls, s[i + n], ci)
    ensures ClassRun(cls, s, i, ci) == n
  {
    var r := ClassRun(cls, s, i, ci);
    assert i + r < |s| ==> !InClass(cls, s[i + r], ci);
  }

  /** `^w\s+` at the start of `w` followed by `n` whitespace characters and a
      non-whitespace character (or the end) matches exactly those. */
  lemma WordThenSpaces(p: Pattern, s: string, w: string, n: nat, ci: bool)
    requires p == [Begin, Lit(w), Plus(Space)]
    requires WordAt(s, 0, w, ci) && n > 0 && |w| + n <= |s| && AllIn(Space, s, |w|, |w| + n, ci)
    requires |w| + n == |s| || !IsSpace(s[|w| + n])
    ensures Match(p, s, 0, ci) == Some(|w| + n)
  {
    ClassRunExact(Space, s, |w|, n, ci);
    assert p[1].words[0] == w && p[2] == Plus(Space);
    assert MatchFrom(p, 3, s, |w| + n, ci) == Some(|w| + n);
    assert TryRun(p, 3, s, |w|, n, ci) == Some(|w| + n);
    assert MatchFrom(p, 2, s, |w|, ci) == Some(|w| + n);
    assert TryWords(p, 1, s, 0, 0, ci) == Some(|w| + n);
    assert MatchFrom(p, 1, s, 0, ci) == Some(|w| + n);
  }

  /** A `^`-anchored rule that opens with an alternation none of whose words
      is at the start of `s`. */
  predicate MissesStart(r: Rule, s: string) {
    && PrefixRule(r) && r.pat[1].Alt?
    && forall w :: 0 <= w < |r.pat[1].words| ==> !WordAt(s, 0, r.pat[1].words[w], r.ci)
  }

  /** `^`-anchored rules whose leading alternation has no word at the start of
      `s` leave `s` unchanged. */
  lemma {:induction false} PrefixRulesMiss(rules: seq<Rule>, s: string)
    requires forall k :: 0 <= k < |rules| ==> MissesStart(rules[k], s)
    ensures ApplyRules(rules, s) == s
    decreases |rules|
  {
    if rules != [] {
      var init := rules[..|rules| - 1];
      var last := rules[|rules| - 1];
      PrefixRulesMiss(init, s);
      NoLeadingWord(last.pat, s, last.ci);
      SubBeginAnchored(last.pat, s, last.ci);
    }
  }

  /** When every rule but the last misses the start, only the last one acts. */
  lemma OnlyLastRuleApplies(rules: seq<Rule>, s: string)
    requires rules != []
    requires forall k :: 0 <= k < |rules| - 1 ==> MissesStart(rules[k], s)
    ensures ApplyRules(rules, s) == Sub(rules[|rules| - 1].pat, s, rules[|rules| - 1].ci)
  {
    var init := rules[..|rules| - 1];
    assert forall k :: 0 <= k < |init| ==> init[k] == rules[k];
    PrefixRulesMiss(init, s);
  }

  /** A case-insensitive rule misses the start of `s` when no word of its
      leading alternation begins with the first character of `s`. */
  lemma FirstCharMiss(r: Rule, s: string)
    requires PrefixRule(r) && r.pat[1].Alt? && r.ci && |s| > 0
    requires forall w :: 0 <= w < |r.pat[1].words| ==>
               r.pat[1].words[w] != [] && LowerChar(r.pat[1].words[w][0]) != LowerChar(s[0])
    ensures MissesStart(r, s)
  {
    forall w | 0 <= w < |r.pat[1].words|
      ensures !WordAt(s, 0, r.pat[1].words[w], r.ci)
    {
      assert !SameChar(s[0], r.pat[1].words[w][0], true);
    }
  }
}
