/** The parts of Python's `str` behaviour that the scrapers rely on, restricted
    to ASCII: character classes (`\s`, `\w`, `isupper`), case mapping, `strip`,
    `split`, `join`, `title`, `in` on strings, and `str(int)`. */
module Ascii {

  import opened Options

  // ---------------------------------------------------------------------------
  // Character classes

  /** `\s` and `str.isspace()` on ASCII: space, \t \n \x0b \x0c \r and \x1c-\x1f. */
  predicate IsSpace(c: char) {
    c == ' ' || (9 <= c as int <= 13) || (28 <= c as int <= 31)
  }

  predicate NotSpace(c: char) { !IsSpace(c) }

  predicate IsUpper(c: char) { 'A' <= c <= 'Z' }

  predicate IsLower(c: char) { 'a' <= c <= 'z' }

  predicate IsLetter(c: char) { IsUpper(c) || IsLower(c) }

  predicate IsDigit(c: char) { '0' <= c <= '9' }

  /** `\w` on ASCII. */
  predicate IsWordChar(c: char) { IsLetter(c) || IsDigit(c) || c == '_' }

  /** `\W` on ASCII. */
  predicate NotWordChar(c: char) { !IsWordChar(c) }

  // ---------------------------------------------------------------------------
  // Case mapping

  function LowerChar(c: char): (r: char)
    ensures !IsUpper(r)
    ensures IsLetter(c) <==> IsLetter(r)
    ensures !IsLetter(c) ==> r == c
  {
    if IsUpper(c) then (c as int + 32) as char else c
  }

  function UpperChar(c: char): (r: char)
    ensures !IsLower(r)
    ensures IsLetter(c) <==> IsLetter(r)
    ensures !IsLetter(c) ==> r == c
  {
    if IsLower(c) then (c as int - 32) as char else c
  }

  /** `s.lower()`. */
  function Lower(s: string): (r: string)
    ensures |r| == |s|
    ensures forall i :: 0 <= i < |s| ==> r[i] == LowerChar(s[i])
  {
    seq(|s|, i requires 0 <= i < |s| => LowerChar(s[i]))
  }

  /** `s.upper()`. */
  function Upper(s: string): (r: string)
    ensures |r| == |s|
    ensures forall i :: 0 <= i < |s| ==> r[i] == UpperChar(s[i])
  {
    seq(|s|, i requires 0 <= i < |s| => UpperChar(s[i]))
  }

  predicate NoUpper(s: string) {
    forall i :: 0 <= i < |s| ==> !IsUpper(s[i])
  }

  /** Case mapping loses only the case: lower-casing forgets upper-casing. */
  lemma LowerOfUpper(s: string)
    ensures Lower(Upper(s)) == Lower(s)
  {
    assert forall i :: 0 <= i < |s| ==> LowerChar(UpperChar(s[i])) == LowerChar(s[i]);
  }

  lemma LowerIdempotent(s: string)
    ensures Lower(Lower(s)) == Lower(s)
  {
  }

  /** `str.title()` on ASCII: a letter is upper-cased when the character before
      it is not a letter, and lower-cased otherwise; other characters stay. */
  function Title(s: string): (r: string)
    ensures |r| == |s|
    ensures forall i :: 0 <= i < |s| && !IsLetter(s[i]) ==> r[i] == s[i]
    ensures forall i :: 0 <= i < |s| && IsLetter(s[i]) ==>
              r[i] == (if i > 0 && IsLetter(s[i - 1]) then LowerChar(s[i]) else UpperChar(s[i]))
  {
    TitleAfterShape(s, false);
    TitleAfter(s, false)
  }

  /** Title-casing keeps letters letters and everything else as it is. */
  lemma TitleKeepsLetters(s: string)
    ensures forall i :: 0 <= i < |s| ==> (IsLetter(s[i]) <==> IsLetter(Title(s)[i]))
  {
    forall i | 0 <= i < |s| && IsLetter(s[i])
      ensures IsLetter(Title(s)[i])
    {
      if i > 0 && IsLetter(s[i - 1]) {
        assert Title(s)[i] == LowerChar(s[i]);
      } else {
        assert Title(s)[i] == UpperChar(s[i]);
      }
    }
  }

  /** Title-casing the rest of a string, given whether the character before
      it was a letter. */
  function TitleAfter(s: string, prevCased: bool): string {
    if s == [] then []
    else if IsLetter(s[0]) then
      [if prevCased then LowerChar(s[0]) else UpperChar(s[0])] + TitleAfter(s[1..], true)
    else [s[0]] + TitleAfter(s[1..], false)
  }

  /** Each character of the result depends only on it and the one before. */
  lemma {:induction false} TitleAfterShape(s: string, prevCased: bool)
    ensures |TitleAfter(s, prevCased)| == |s|
    ensures forall i :: 0 <= i < |s| && !IsLetter(s[i]) ==> TitleAfter(s, prevCased)[i] == s[i]
    ensures forall i :: 0 <= i < |s| && IsLetter(s[i]) ==>
              TitleAfter(s, prevCased)[i]
              == (if (if i > 0 then IsLetter(s[i - 1]) else prevCased) then LowerChar(s[i]) else UpperChar(s[i]))
    decreases |s|
  {
    if s != [] {
      var t := s[1..];
      TitleAfterShape(t, IsLetter(s[0]));
      var r := TitleAfter(s, prevCased);
      assert r[1..] == TitleAfter(t, IsLetter(s[0]));
      assert forall i :: 1 <= i < |s| ==> s[i] == t[i - 1] && r[i] == r[1..][i - 1];
    }
  }

  // ---------------------------------------------------------------------------
  // Runs, strip

  /** The length of the longest prefix of `s` whose characters satisfy `p`. */
  function LeadingRun(s: string, p: char -> bool): (n: nat)
    ensures n <= |s|
    ensures forall i :: 0 <= i < n ==> p(s[i])
    ensures n < |s| ==> !p(s[n])
  {
    if s == [] || !p(s[0]) then 0 else 1 + LeadingRun(s[1..], p)
  }

  /** The length of the longest suffix of `s` whose characters satisfy `p`. */
  function TrailingRun(s: string, p: char -> bool): (n: nat)
    ensures n <= |s|
    ensures forall i :: |s| - n <= i < |s| ==> p(s[i])
    ensures n < |s| ==> !p(s[|s| - n - 1])
  {
    if s == [] || !p(s[|s| - 1]) then 0 else 1 + TrailingRun(s[..|s| - 1], p)
  }

  /** Removes a leading and then a trailing run of characters satisfying `p`. */
  function TrimBoth(s: string, p: char -> bool): (r: string)
    ensures |r| <= |s|
    ensures exists a :: OccursAt(s, r, a)
    ensures r == [] || (!p(r[0]) && !p(r[|r| - 1]))
    ensures r == [] <==> forall i :: 0 <= i < |s| ==> p(s[i])
  {
    var a := LeadingRun(s, p);
    var t := s[a..];
    var b := TrailingRun(t, p);
    assert t[..|t| - b] == s[a..a + (|t| - b)];
    assert OccursAt(s, t[..|t| - b], a);
    assert t[..|t| - b] == [] ==> a == |s| by {
      if a < |s| { assert t[0] == s[a]; }
    }
    t[..|t| - b]
  }

  /** `s.strip()`. */
  function Strip(s: string): (r: string)
    ensures |r| <= |s|
    ensures exists a :: OccursAt(s, r, a)
    ensures r == [] || (!IsSpace(r[0]) && !IsSpace(r[|r| - 1]))
    ensures r == [] <==> forall i :: 0 <= i < |s| ==> IsSpace(s[i])
  {
    TrimBoth(s, IsSpace)
  }

  /** `re.sub(r"^\W+|\W+$", "", s)`: the leading and the trailing run of
      non-word characters removed. */
  function TrimNonWord(s: string): (r: string)
    ensures |r| <= |s|
    ensures exists a :: OccursAt(s, r, a)
    ensures r == [] || (IsWordChar(r[0]) && IsWordChar(r[|r| - 1]))
  {
    TrimBoth(s, NotWordChar)
  }

  lemma StripIdempotent(s: string)
    ensures Strip(Strip(s)) == Strip(s)
  {
    var r := Strip(s);
    if r != [] {
      assert LeadingRun(r, IsSpace) == 0;
      assert TrailingRun(r, IsSpace) == 0;
      assert r[0..][..|r[0..]| - 0] == r;
    }
  }

  /** `s.rstrip(c)`. */
  function RStripChar(s: string, c: char): (r: string)
    ensures |r| <= |s| && r == s[..|r|]
    ensures r == [] || r[|r| - 1] != c
    ensures forall i :: |r| <= i < |s| ==> s[i] == c
  {
    if s != [] && s[|s| - 1] == c then RStripChar(s[..|s| - 1], c) else s
  }

  /** Substrings keep every property of single characters and of neighbours. */
  lemma SliceKeepsNoUpper(s: string, a: int, b: int)
    requires 0 <= a <= b <= |s| && NoUpper(s)
    ensures NoUpper(s[a..b])
  {
    assert forall i :: 0 <= i < b - a ==> s[a..b][i] == s[a + i];
  }

  // ---------------------------------------------------------------------------
  // Whitespace collapse

  /** `re.sub(r"\s+", " ", s)`: every maximal run of whitespace becomes one space. */
  function CollapseWs(s: string): (r: string)
    ensures |r| <= |s|
    ensures forall i :: 0 <= i < |r| ==> r[i] in s || r[i] == ' '
    ensures forall i :: 0 <= i < |r| && IsSpace(r[i]) ==> r[i] == ' '
    ensures forall i :: 0 <= i < |r| - 1 ==> !(IsSpace(r[i]) && IsSpace(r[i + 1]))
    ensures |s| > 0 && !IsSpace(s[0]) ==> |r| > 0 && r[0] == s[0]
    ensures |s| > 0 && IsSpace(s[0]) ==> |r| > 0 && r[0] == ' '
    ensures |s| > 0 <==> |r| > 0
    decreases |s|
  {
    if s == [] then []
    else if IsSpace(s[0]) then
      var n := LeadingRun(s, IsSpace);
      var rest := CollapseWs(s[n..]);
      assert forall c :: c in s[n..] ==> c in s;
      [' '] + rest
    else
      var rest := CollapseWs(s[1..]);
      assert forall c :: c in s[1..] ==> c in s;
      [s[0]] + rest
  }

  /** No run of two or more whitespace characters. */
  predicate SingleSpaced(s: string) {
    forall i :: 0 <= i < |s| - 1 ==> !(IsSpace(s[i]) && IsSpace(s[i + 1]))
  }

  lemma SliceKeepsSingleSpaced(s: string, a: int, b: int)
    requires 0 <= a <= b <= |s| && SingleSpaced(s)
    ensures SingleSpaced(s[a..b])
  {
    assert forall i :: 0 <= i < b - a ==> s[a..b][i] == s[a + i];
  }

  // ---------------------------------------------------------------------------
  // Prefixes, suffixes, substrings

  predicate StartsWith(s: string, p: string) {
    |p| <= |s| && s[..|p|] == p
  }

  predicate EndsWith(s: string, p: string) {
    |p| <= |s| && s[|s| - |p|..] == p
  }

  /** `sub` occurs in `s` at index `i`. */
  predicate OccursAt(s: string, sub: string, i: int) {
    0 <= i && i + |sub| <= |s| && s[i..i + |sub|] == sub
  }

  /** Python's `sub in s`. */
  predicate Contains(s: string, sub: string)
    decreases |s|
  {
    StartsWith(s, sub) || (|s| > 0 && Contains(s[1..], sub))
  }

  /** `Contains` means an occurrence at some index, and conversely. */
  lemma {:induction false} ContainsAt(s: string, sub: string)
    ensures Contains(s, sub) <==> exists i :: OccursAt(s, sub, i)
    decreases |s|
  {
    if StartsWith(s, sub) {
      assert OccursAt(s, sub, 0);
    } else if |s| > 0 {
      ContainsAt(s[1..], sub);
      if Contains(s[1..], sub) {
        var i :| OccursAt(s[1..], sub, i);
        assert s[1..][i..i + |sub|] == s[i + 1..i + 1 + |sub|];
        assert OccursAt(s, sub, i + 1);
      }
      if exists i :: OccursAt(s, sub, i) {
        var i :| OccursAt(s, sub, i);
        assert i != 0;
        assert s[1..][i - 1..i - 1 + |sub|] == s[i..i + |sub|];
        assert OccursAt(s[1..], sub, i - 1);
      }
    }
  }

  /** Some element of `words` occurs in `s` (`any(w in s for w in words)`). */
  predicate ContainsAny(s: string, words: seq<string>) {
    exists k :: 0 <= k < |words| && Contains(s, words[k])
  }

  /** A substring of a substring is a substring. */
  lemma ContainsInSlice(s: string, a: int, b: int, sub: string)
    requires 0 <= a <= b <= |s| && Contains(s[a..b], sub)
    ensures Contains(s, sub)
  {
    ContainsAt(s[a..b], sub);
    var i :| OccursAt(s[a..b], sub, i);
    assert forall k :: i <= k < i + |sub| ==> s[a..b][k] == s[a + k];
    assert s[a..b][i..i + |sub|] == s[a + i..a + i + |sub|];
    assert OccursAt(s, sub, a + i);
    ContainsAt(s, sub);
  }

  // ---------------------------------------------------------------------------
  // Character-level maps and filters

  /** `s.replace(a, b)` for single characters. */
  function ReplaceChar(s: string, a: char, b: char): (r: string)
    ensures |r| == |s|
    ensures forall i :: 0 <= i < |s| ==> r[i] == (if s[i] == a then b else s[i])
  {
    seq(|s|, i requires 0 <= i < |s| => if s[i] == a then b else s[i])
  }

  /** `re.sub("[...]", "", s)`: every character in `cs` removed. */
  function RemoveChars(s: string, cs: set<char>): (r: string)
    ensures |r| <= |s|
    ensures forall i :: 0 <= i < |r| ==> r[i] !in cs && r[i] in s
  {
    if s == [] then []
    else
      var rest := RemoveChars(s[1..], cs);
      assert forall c :: c in s[1..] ==> c in s;
      if s[0] in cs then rest else [s[0]] + rest
  }

  /** Every character of `s` satisfies `f`. */
  predicate All(s: string, f: char -> bool) {
    forall i :: 0 <= i < |s| ==> f(s[i])
  }

  lemma AllSlice(s: string, f: char -> bool, a: int, b: int)
    requires 0 <= a <= b <= |s| && All(s, f)
    ensures All(s[a..b], f)
  {
    assert forall i :: 0 <= i < b - a ==> s[a..b][i] == s[a + i];
  }

  /** Characters that survive the removal keep every property they had. */
  lemma {:induction false} AllRemoveChars(s: string, cs: set<char>, f: char -> bool)
    requires forall i :: 0 <= i < |s| && s[i] !in cs ==> f(s[i])
    ensures All(RemoveChars(s, cs), f)
    decreases |s|
  {
    if s != [] {
      assert forall i :: 0 <= i < |s| - 1 ==> s[1..][i] == s[i + 1];
      AllRemoveChars(s[1..], cs, f);
    }
  }

  lemma {:induction false} AllCollapseWs(s: string, f: char -> bool)
    requires All(s, f) && f(' ')
    ensures All(CollapseWs(s), f)
    decreases |s|
  {
    if s != [] {
      if IsSpace(s[0]) {
        var n := LeadingRun(s, IsSpace);
        AllSlice(s, f, n, |s|);
        AllCollapseWs(s[n..], f);
      } else {
        AllSlice(s, f, 1, |s|);
        AllCollapseWs(s[1..], f);
      }
    }
  }

  // ---------------------------------------------------------------------------
  // Split and join

  /** `s.split()`: the maximal runs of non-whitespace characters, in order. */
  function SplitWs(s: string): (ws: seq<string>)
    ensures forall k :: 0 <= k < |ws| ==> ws[k] != [] && forall i :: 0 <= i < |ws[k]| ==> !IsSpace(ws[k][i])
    ensures ws == [] <==> forall i :: 0 <= i < |s| ==> IsSpace(s[i])
    decreases |s|
  {
    var a := LeadingRun(s, IsSpace);
    var t := s[a..];
    if t == [] then []
    else
      var n := LeadingRun(t, NotSpace);
      assert !IsSpace(t[0]) && n > 0;
      var rest := SplitWs(t[n..]);
      assert forall k :: 0 < k <= |rest| ==> ([t[..n]] + rest)[k] == rest[k - 1];
      [t[..n]] + rest
  }

  /** `sep.join(xs)`. */
  function Join(sep: string, xs: seq<string>): (r: string)
  {
    if xs == [] then []
    else if |xs| == 1 then xs[0]
    else xs[0] + sep + Join(sep, xs[1..])
  }

  /** Appending an item to a non-empty list appends the separator and it. */
  lemma {:induction false} JoinAppend(sep: string, xs: seq<string>, x: string)
    requires xs != []
    ensures Join(sep, xs + [x]) == Join(sep, xs) + sep + x
    decreases |xs|
  {
    if |xs| > 1 {
      assert (xs + [x])[1..] == xs[1..] + [x];
      JoinAppend(sep, xs[1..], x);
    }
  }

  /** Non-empty words without whitespace, as `split()` returns them. */
  predicate Words(ws: seq<string>) {
    forall k :: 0 <= k < |ws| ==> ws[k] != [] && forall i :: 0 <= i < |ws[k]| ==> !IsSpace(ws[k][i])
  }

  /** Splitting words joined by single spaces gives the words back. */
  lemma {:induction false} SplitWsJoin(ws: seq<string>)
    requires Words(ws)
    ensures SplitWs(Join(" ", ws)) == ws
    decreases |ws|
  {
    if |ws| == 1 {
      SplitWsWord(ws[0], []);
      assert ws[0] + [] == ws[0];
    } else if |ws| > 1 {
      var rest := Join(" ", ws[1..]);
      assert Words(ws[1..]);
      SplitWsJoin(ws[1..]);
      JoinStartsWithFirst(" ", ws[1..]);
      SplitWsWordSpace(ws[0], rest);
      assert Join(" ", ws) == ws[0] + " " + rest;
    }
  }

  /** A word, a space and more words: the word is split off first. */
  lemma SplitWsWordSpace(w: string, rest: string)
    requires w != [] && forall i :: 0 <= i < |w| ==> !IsSpace(w[i])
    requires rest != [] && !IsSpace(rest[0])
    ensures SplitWs(w + " " + rest) == [w] + SplitWs(rest)
  {
    var sb := " " + rest;
    calc {
      SplitWs(w + " " + rest);
      { assert w + " " + rest == w + sb; }
      SplitWs(w + sb);
      { SplitWsWord(w, sb); }
      [w] + SplitWs(sb);
      { SplitWsSkipSpace(rest); }
      [w] + SplitWs(rest);
    }
  }

  /** A word followed by whitespace or nothing is split off first. */
  lemma SplitWsWord(w: string, r: string)
    requires w != [] && forall i :: 0 <= i < |w| ==> !IsSpace(w[i])
    requires r == [] || IsSpace(r[0])
    ensures SplitWs(w + r) == [w] + SplitWs(r)
  {
    var s := w + r;
    assert s[0] == w[0];
    assert LeadingRun(s, IsSpace) == 0;
    assert s[0..] == s;
    assert forall i :: 0 <= i < |w| ==> s[i] == w[i];
    assert |w| < |s| ==> s[|w|] == r[0];
    assert LeadingRun(s, NotSpace) == |w|;
    assert s[..|w|] == w;
    assert s[|w|..] == r;
  }

  /** A join of non-empty words begins with the first word. */
  lemma JoinStartsWithFirst(sep: string, xs: seq<string>)
    requires xs != []
    ensures |Join(sep, xs)| >= |xs[0]| && Join(sep, xs)[..|xs[0]|] == xs[0]
  {
    if |xs| > 1 {
      assert Join(sep, xs) == xs[0] + (sep + Join(sep, xs[1..]));
    }
  }

  /** A single space in front of a word does not change the split. */
  lemma SplitWsSkipSpace(r: string)
    requires r != [] && !IsSpace(r[0])
    ensures SplitWs(" " + r) == SplitWs(r)
  {
    var s := " " + r;
    assert LeadingRun(s, IsSpace) == 1 by {
      assert s[1] == r[0];
    }
    assert s[1..] == r;
    assert LeadingRun(r, IsSpace) == 0;
  }

  /** Replacing the separator of a join whose words do not contain it. */
  lemma {:induction false} ReplaceSeparator(ws: seq<string>, a: char, b: char)
    requires forall k :: 0 <= k < |ws| ==> a !in ws[k]
    ensures ReplaceChar(Join([a], ws), a, b) == Join([b], ws)
    decreases |ws|
  {
    if |ws| > 1 {
      ReplaceSeparator(ws[1..], a, b);
      var w := ws[0];
      var x := Join([a], ws);
      var y := Join([b], ws);
      assert x == w + [a] + Join([a], ws[1..]);
      assert y == w + [b] + Join([b], ws[1..]);
      forall i | 0 <= i < |x|
        ensures ReplaceChar(x, a, b)[i] == y[i]
      {
        if i < |w| {
          assert x[i] == w[i];
        } else if i > |w| {
          assert x[i] == Join([a], ws[1..])[i - |w| - 1];
        }
      }
    } else if |ws| == 1 {
      assert forall i :: 0 <= i < |ws[0]| ==> ws[0][i] != a;
    }
  }

  /** A property of every character of the separator and of every word
      holds of every character of their join. */
  lemma {:induction false} AllJoin(sep: string, ws: seq<string>, f: char -> bool)
    requires All(sep, f) && forall k :: 0 <= k < |ws| ==> All(ws[k], f)
    ensures All(Join(sep, ws), f)
    decreases |ws|
  {
    if |ws| > 1 {
      AllJoin(sep, ws[1..], f);
      var x := Join(sep, ws);
      assert x == ws[0] + sep + Join(sep, ws[1..]);
      forall i | 0 <= i < |x|
        ensures f(x[i])
      {
        if i < |ws[0]| {
          assert x[i] == ws[0][i];
        } else if i < |ws[0]| + |sep| {
          assert x[i] == sep[i - |ws[0]|];
        } else {
          assert x[i] == Join(sep, ws[1..])[i - |ws[0]| - |sep|];
        }
      }
    }
  }

  /** Title-casing words joined by spaces title-cases each word. */
  lemma {:induction false} TitleJoin(ws: seq<string>)
    ensures Title(Join(" ", ws)) == Join(" ", TitleEach(ws))
    decreases |ws|
  {
    if |ws| > 1 {
      TitleJoin(ws[1..]);
      assert TitleEach(ws)[1..] == TitleEach(ws[1..]);
      TitleAround(ws[0], Join(" ", ws[1..]));
    }
  }

  /** Each word title-cased. */
  function TitleEach(ws: seq<string>): (ts: seq<string>)
    ensures |ts| == |ws| && forall k :: 0 <= k < |ws| ==> ts[k] == Title(ws[k])
  {
    seq(|ws|, k requires 0 <= k < |ws| => Title(ws[k]))
  }

  /** A space restarts title-casing. */
  lemma TitleAround(a: string, b: string)
    ensures Title(a + " " + b) == Title(a) + " " + Title(b)
  {
    var sb := " " + b;
    assert a + " " + b == a + sb;
    TitleAfterAppend(a, sb, false);
    assert sb[0] == ' ' && sb[1..] == b;
    assert TitleAfter(sb, EndCased(a, false)) == " " + TitleAfter(b, false);
  }

  /** Whether the character before the next one was a letter, after `a`. */
  function EndCased(a: string, prevCased: bool): bool {
    if a == [] then prevCased else IsLetter(a[|a| - 1])
  }

  lemma {:induction false} TitleAfterAppend(a: string, b: string, prevCased: bool)
    ensures TitleAfter(a + b, prevCased) == TitleAfter(a, prevCased) + TitleAfter(b, EndCased(a, prevCased))
    decreases |a|
  {
    if a == [] {
      assert a + b == b;
    } else {
      assert (a + b)[0] == a[0] && (a + b)[1..] == a[1..] + b;
      TitleAfterAppend(a[1..], b, IsLetter(a[0]));
      assert EndCased(a, prevCased) == EndCased(a[1..], IsLetter(a[0]));
    }
  }


  /** A lower-case word title-cased: its first letter upper-cased. */
  lemma TitleLowerWord(w: string)
    requires w != [] && All(w, IsLower)
    ensures Title(w) == [UpperChar(w[0])] + w[1..]
  {
    var t := [UpperChar(w[0])] + w[1..];
    forall i | 0 <= i < |w|
      ensures Title(w)[i] == t[i]
    {
      if i > 0 {
        assert IsLetter(w[i - 1]) && IsLower(w[i]);
      }
    }
  }

  /** Title-casing keeps words words. */
  lemma TitleWords(ws: seq<string>)
    requires Words(ws)
    ensures Words(TitleEach(ws))
  {
    forall k, i | 0 <= k < |ws| && 0 <= i < |ws[k]|
      ensures !IsSpace(Title(ws[k])[i])
    {
      TitleKeepsLetters(ws[k]);
    }
  }

  /** The index of the first `c` in `s`, if any. */
  function IndexOf(s: string, c: char): (r: Option<nat>)
    ensures r.None? <==> c !in s
    ensures r.Some? ==> r.value < |s| && s[r.value] == c && c !in s[..r.value]
  {
    if s == [] then None
    else if s[0] == c then Some(0)
    else
      var r := IndexOf(s[1..], c);
      if r.None? then None
      else
        assert s[..r.value + 1] == [s[0]] + s[1..][..r.value];
        Some(r.value + 1)
  }

  /** `s.split(c)` for a single character `c`. */
  function SplitOn(s: string, c: char): (parts: seq<string>)
    ensures |parts| >= 1
    ensures c !in s ==> parts == [s]
    ensures c in s ==> |parts| > 1 && |parts[0]| < |s| && s[|parts[0]|] == c
    ensures forall k :: 0 <= k < |parts| ==> c !in parts[k]
    ensures |parts[0]| <= |s| && parts[0] == s[..|parts[0]|]
    decreases |s|
  {
    match IndexOf(s, c)
    case None => [s]
    case Some(i) =>
      var rest := SplitOn(s[i + 1..], c);
      assert ([s[..i]] + rest)[1..] == rest;
      [s[..i]] + rest
  }

  /** The last part of a split is a tail of the text, and follows a
      separator when there are several parts. */
  lemma {:induction false} SplitOnLast(s: string, c: char)
    ensures LastPartOf(s, c, SplitOn(s, c))
    decreases |s|
  {
    var parts := SplitOn(s, c);
    match IndexOf(s, c)
    case None =>
      assert parts == [s];
    case Some(i) =>
      var t := s[i + 1..];
      var rest := SplitOn(t, c);
      SplitOnLast(t, c);
      assert parts == [s[..i]] + rest;
      LastPartStep(s, c, i, rest, parts);
  }

  /** `parts` ends in a tail of `s`, preceded by `c` when there are several
      parts. */
  predicate LastPartOf(s: string, c: char, parts: seq<string>) {
    && |parts| >= 1
    && |parts[|parts| - 1]| <= |s|
    && parts[|parts| - 1] == s[|s| - |parts[|parts| - 1]|..]
    && (|parts| > 1 ==> |parts[|parts| - 1]| < |s| && s[|s| - |parts[|parts| - 1]| - 1] == c)
  }

  lemma LastPartStep(s: string, c: char, i: nat, rest: seq<string>, parts: seq<string>)
    requires i < |s| && s[i] == c
    requires LastPartOf(s[i + 1..], c, rest) && (|rest| == 1 ==> rest[0] == s[i + 1..])
    requires parts == [s[..i]] + rest
    ensures LastPartOf(s, c, parts)
  {
    var t := s[i + 1..];
    var last := rest[|rest| - 1];
    assert parts[|parts| - 1] == last;
    assert t[|t| - |last|..] == s[|s| - |last|..];
    if |rest| > 1 {
      assert t[|t| - |last| - 1] == s[|s| - |last| - 1];
    } else {
      assert |last| == |t|;
    }
  }



  // ---------------------------------------------------------------------------
  // The first piece of a split at `\s{2,}` or at one of a few words

  /** A piece ends at `i`: two whitespace characters, or one of the words,
      begin there. */
  predicate StopAt(s: string, i: nat, words: seq<string>)
    requires i <= |s|
  {
    || (i + 1 < |s| && IsSpace(s[i]) && IsSpace(s[i + 1]))
    || exists k :: 0 <= k < |words| && StartsWith(s[i..], words[k])
  }

  /** The leftmost stop at or after `i`, or the end. */
  function FirstStop(s: string, i: nat, words: seq<string>): (j: nat)
    requires i <= |s|
    ensures i <= j <= |s|
    ensures forall m :: i <= m < j ==> !StopAt(s, m, words)
    ensures j < |s| ==> StopAt(s, j, words)
    decreases |s| - i
  {
    if i == |s| || StopAt(s, i, words) then i else FirstStop(s, i + 1, words)
  }

  /** `re.split(r"\s{2,}|w1|w2|...", s)[0]`: the text before the leftmost
      stop; all of `s` when there is none. */
  function FirstPiece(s: string, words: seq<string>): (r: string)
    ensures |r| <= |s| && r == s[..|r|]
    ensures |r| < |s| ==> StopAt(s, |r|, words)
    ensures forall m :: 0 <= m < |r| ==> !StopAt(s, m, words)
  {
    s[..FirstStop(s, 0, words)]
  }

  /** The first piece has no run of two whitespace characters. */
  lemma FirstPieceSingleSpaced(s: string, words: seq<string>)
    ensures SingleSpaced(FirstPiece(s, words))
  {
    var p := FirstPiece(s, words);
    forall i | 0 <= i < |p| - 1
      ensures !(IsSpace(p[i]) && IsSpace(p[i + 1]))
    {
      assert !StopAt(s, i, words);
    }
  }

  /** The first piece contains none of the (non-empty) words. */
  lemma FirstPieceAvoids(s: string, words: seq<string>, k: nat)
    requires k < |words| && words[k] != []
    ensures !Contains(FirstPiece(s, words), words[k])
  {
    var p := FirstPiece(s, words);
    var w := words[k];
    ContainsAt(p, w);
    if m :| OccursAt(p, w, m) {
      assert s[m..][..|w|] == p[m..m + |w|];
      assert StopAt(s, m, words);
    }
  }

  /** The first piece, stripped, has no run of two whitespace characters and
      contains none of the (non-empty) words. */
  lemma FirstPieceHasNoStop(s: string, words: seq<string>)
    ensures SingleSpaced(Strip(FirstPiece(s, words)))
    ensures AvoidsWords(Strip(FirstPiece(s, words)), words)
  {
    var p := FirstPiece(s, words);
    FirstPieceSingleSpaced(s, words);
    forall k | 0 <= k < |words| && words[k] != []
      ensures !Contains(p, words[k])
    {
      FirstPieceAvoids(s, words, k);
    }
    StripKeepsShape(p, words);
  }

  /** Stripping keeps a text single-spaced and free of the words. */
  lemma StripKeepsShape(p: string, words: seq<string>)
    requires SingleSpaced(p) && AvoidsWords(p, words)
    ensures SingleSpaced(Strip(p)) && AvoidsWords(Strip(p), words)
  {
    var a :| OccursAt(p, Strip(p), a);
    OccurrenceKeepsShape(p, Strip(p), a, words);
  }

  lemma OccurrenceKeepsShape(p: string, r: string, a: int, words: seq<string>)
    requires OccursAt(p, r, a) && SingleSpaced(p) && AvoidsWords(p, words)
    ensures SingleSpaced(r) && AvoidsWords(r, words)
  {
    assert r == p[a..a + |r|];
    SliceKeepsSingleSpaced(p, a, a + |r|);
    SliceAvoidsWords(p, a, a + |r|, words);
  }

  /** None of the non-empty `words` occurs in `r`. */
  predicate AvoidsWords(r: string, words: seq<string>) {
    forall k :: 0 <= k < |words| && words[k] != [] ==> !Contains(r, words[k])
  }

  lemma SliceAvoidsWords(p: string, a: int, b: int, words: seq<string>)
    requires 0 <= a <= b <= |p| && AvoidsWords(p, words)
    ensures AvoidsWords(p[a..b], words)
  {
    forall k | 0 <= k < |words| && words[k] != []
      ensures !Contains(p[a..b], words[k])
    {
      if Contains(p[a..b], words[k]) {
        ContainsInSlice(p, a, b, words[k]);
      }
    }
  }

  /** A captured field stripped, cut before the first run of two whitespace
      characters or the first stop word, and stripped again
      (`re.split(r"\s{2,}|Stop|...", s.strip())[0].strip()`). */
  function CleanField(capture: string, stops: seq<string>): string {
    Strip(FirstPiece(Strip(capture), stops))
  }

  /** A cleaned field has no whitespace at either end, no run of two
      whitespace characters and none of the stop words. */
  lemma CleanFieldShape(capture: string, stops: seq<string>)
    ensures var r := CleanField(capture, stops);
      && (r == [] || (!IsSpace(r[0]) && !IsSpace(r[|r| - 1])))
      && SingleSpaced(r)
      && forall k :: 0 <= k < |stops| && stops[k] != [] ==> !Contains(r, stops[k])
  {
    FirstPieceHasNoStop(Strip(capture), stops);
  }

  // ---------------------------------------------------------------------------
  // Links

  /** A link made absolute: one that does not start with "http" is put after
      the site. */
  function AbsoluteUrl(site: string, href: string): (url: string)
    requires StartsWith(site, "http")
    ensures StartsWith(url, "http")
    ensures |href| <= |url| && url[|url| - |href|..] == href
    ensures StartsWith(href, "http") ==> url == href
    ensures !StartsWith(href, "http") ==> url == site + href
  {
    if StartsWith(href, "http") then href else site + href
  }

  /** How many times `c` occurs. */
  function Count(s: string, c: char): nat
    decreases |s|
  {
    if s == [] then 0 else (if s[0] == c then 1 else 0) + Count(s[1..], c)
  }

  lemma {:induction false} CountAppend(a: string, b: string, c: char)
    ensures Count(a + b, c) == Count(a, c) + Count(b, c)
    decreases |a|
  {
    if a == [] {
      assert a + b == b;
    } else {
      assert (a + b)[0] == a[0] && (a + b)[1..] == a[1..] + b;
      CountAppend(a[1..], b, c);
    }
  }

  // ---------------------------------------------------------------------------
  // Decimal rendering

  function DigitChar(d: nat): (c: char)
    requires d < 10
    ensures IsDigit(c)
  {
    ('0' as int + d) as char
  }

  function NatToString(n: nat): (r: string)
    ensures |r| > 0
    ensures forall i :: 0 <= i < |r| ==> IsDigit(r[i])
  {
    if n < 10 then [DigitChar(n)] else NatToString(n / 10) + [DigitChar(n % 10)]
  }

  /** Python's `str(i)` for an integer. */
  function IntToString(i: int): (r: string)
    ensures |r| > 0
    ensures forall k :: 0 <= k < |r| ==> IsDigit(r[k]) || (k == 0 && r[k] == '-')
  {
    if i < 0 then "-" + NatToString(-i) else NatToString(i)
  }
}
