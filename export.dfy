/** scripts/export_all_formats.py: `escape_mysql`, which renders one column
    value as a MySQL literal, and the INSERT line the MySQL dump writes for
    each row.  A reader for the literals is defined beside them, and the dump's
    lines are proved to read back as the values they were written from. */
module Export {

  import opened Options
  import opened Ascii

  /** A column value as sqlite3 returns it: NULL, an integer or text. */
  datatype SqlValue = Null | Int(i: int) | Text(s: string)

  // ---------------------------------------------------------------------------
  // escape_mysql

  /** `s.replace(c, rep)` for a one-character `c`. */
  function ReplaceWith(s: string, c: char, rep: string): (r: string)
    decreases |s|
  {
    if s == [] then []
    else (if s[0] == c then rep else [s[0]]) + ReplaceWith(s[1..], c, rep)
  }

  /** The text between the quotes: backslashes doubled first, then every
      quote preceded by a backslash. */
  function EscapeText(s: string): string {
    ReplaceWith(ReplaceWith(s, '\\', "\\\\"), '\'', "\\'")
  }

  /** `escape_mysql`: NULL, the decimal integer unquoted, or the escaped text
      in single quotes. */
  function EscapeMysql(v: SqlValue): (r: string)
    ensures r != []
  {
    match v
    case Null => "NULL"
    case Int(i) => IntToString(i)
    case Text(s) => "'" + EscapeText(s) + "'"
  }

  /** What one character becomes inside the quotes. */
  function EscapeChar(c: char): string {
    if c == '\\' then "\\\\" else if c == '\'' then "\\'" else [c]
  }

  /** The two passes as one pass, character by character. */
  function EscapeEach(s: string): string
    decreases |s|
  {
    if s == [] then [] else EscapeChar(s[0]) + EscapeEach(s[1..])
  }

  lemma {:induction false} ReplaceWithAppend(a: string, b: string, c: char, rep: string)
    ensures ReplaceWith(a + b, c, rep) == ReplaceWith(a, c, rep) + ReplaceWith(b, c, rep)
    decreases |a|
  {
    if a == [] {
      assert a + b == b;
    } else {
      assert (a + b)[0] == a[0] && (a + b)[1..] == a[1..] + b;
      ReplaceWithAppend(a[1..], b, c, rep);
    }
  }

  /** Doubling the backslashes and then escaping the quotes escapes each
      character on its own: the second pass never sees a quote the first
      pass wrote, as the first pass writes none. */
  lemma {:induction false} EscapeTextOnePass(s: string)
    ensures EscapeText(s) == EscapeEach(s)
    decreases |s|
  {
    if s != [] {
      var first := if s[0] == '\\' then "\\\\" else [s[0]];
      var rest := ReplaceWith(s[1..], '\\', "\\\\");
      assert ReplaceWith(s, '\\', "\\\\") == first + rest;
      ReplaceWithAppend(first, rest, '\'', "\\'");
      if s[0] == '\\' {
        assert ReplaceWith(first, '\'', "\\'") == "\\\\";
      } else {
        assert ReplaceWith(first, '\'', "\\'") == EscapeChar(s[0]);
      }
      EscapeTextOnePass(s[1..]);
    }
  }

  /** Reading the escaped text back: a backslash takes the next character
      literally. */
  function Unescape(t: string): (s: string)
    decreases |t|
  {
    if t == [] then []
    else if t[0] == '\\' && |t| >= 2 then [t[1]] + Unescape(t[2..])
    else [t[0]] + Unescape(t[1..])
  }

  lemma {:induction false} UnescapeEach(s: string)
    ensures Unescape(EscapeEach(s)) == s
    decreases |s|
  {
    if s != [] {
      var t := EscapeEach(s);
      var rest := EscapeEach(s[1..]);
      assert t == EscapeChar(s[0]) + rest;
      if s[0] == '\\' || s[0] == '\'' {
        assert t[0] == '\\' && t[1] == s[0] && t[2..] == rest;
      } else {
        assert t[0] == s[0] && t[1..] == rest;
      }
      UnescapeEach(s[1..]);
    }
  }

  /** Round trip: unescaping the text between the quotes gives the string
      back. */
  lemma UnescapeEscape(s: string)
    ensures Unescape(EscapeText(s)) == s
    ensures EscapeMysql(Text(s)) == "'" + EscapeText(s) + "'"
  {
    EscapeTextOnePass(s);
    UnescapeEach(s);
  }

  /** Different strings are written as different literals. */
  lemma EscapeTextInjective(a: string, b: string)
    ensures EscapeText(a) == EscapeText(b) <==> a == b
    ensures EscapeMysql(Text(a)) == EscapeMysql(Text(b)) <==> a == b
  {
    UnescapeEscape(a);
    UnescapeEscape(b);
    if EscapeMysql(Text(a)) == EscapeMysql(Text(b)) {
      var ea := EscapeMysql(Text(a));
      assert ea[1..|ea| - 1] == EscapeText(a);
      assert EscapeMysql(Text(b))[1..|ea| - 1] == EscapeText(b);
    }
  }

  lemma {:induction false} EscapeEachLength(s: string)
    ensures |EscapeEach(s)| == |s| + Count(s, '\\') + Count(s, '\'')
    decreases |s|
  {
    if s != [] {
      EscapeEachLength(s[1..]);
    }
  }

  /** A literal is two characters longer than the string, plus one for each
      backslash and each quote in it. */
  lemma EscapeLength(s: string)
    ensures |EscapeText(s)| == |s| + Count(s, '\\') + Count(s, '\'')
    ensures |EscapeMysql(Text(s))| == |s| + Count(s, '\\') + Count(s, '\'') + 2
  {
    EscapeTextOnePass(s);
    EscapeEachLength(s);
  }

  /** How many backslashes `s` ends with. */
  function BackslashesEnding(s: string): nat
    decreases |s|
  {
    if s == [] || s[|s| - 1] != '\\' then 0 else 1 + BackslashesEnding(s[..|s| - 1])
  }

  /** The backslashes ending `a + b` are those ending `b`, and those ending
      `a` too when `b` is all backslashes. */
  lemma {:induction false} TrailingBackslashesAppend(a: string, b: string)
    ensures BackslashesEnding(a + b) ==
              if BackslashesEnding(b) == |b| then |b| + BackslashesEnding(a)
              else BackslashesEnding(b)
    decreases |b|
  {
    if b == [] {
      assert a + b == a;
    } else {
      var ab := a + b;
      assert ab[|ab| - 1] == b[|b| - 1];
      if b[|b| - 1] == '\\' {
        assert ab[..|ab| - 1] == a + b[..|b| - 1];
        TrailingBackslashesAppend(a, b[..|b| - 1]);
      }
    }
  }

  /** Every quote in `t` follows an odd run of backslashes. */
  predicate QuotesAfterOddRuns(t: string) {
    forall k :: 0 <= k < |t| && t[k] == '\'' ==> BackslashesEnding(t[..k]) % 2 == 1
  }

  /** What one character becomes ends in an even run of backslashes. */
  lemma EscapeCharRun(c: char)
    ensures BackslashesEnding(EscapeChar(c)) % 2 == 0
    ensures QuotesAfterOddRuns(EscapeChar(c))
  {
    var tok := EscapeChar(c);
    if c == '\\' {
      assert tok[..1] == "\\" && tok[..1][..0] == [];
      assert BackslashesEnding(tok) == 2;
    } else if c == '\'' {
      assert tok[..1] == "\\" && tok[..1][..0] == [];
      assert BackslashesEnding(tok[..1]) == 1;
    }
  }

  /** The one-pass text ends in an even run of backslashes. */
  lemma {:induction false} EscapeEachEvenEnd(s: string)
    ensures BackslashesEnding(EscapeEach(s)) % 2 == 0
    decreases |s|
  {
    if s != [] {
      EscapeEachEvenEnd(s[1..]);
      EscapeCharRun(s[0]);
      TrailingBackslashesAppend(EscapeChar(s[0]), EscapeEach(s[1..]));
    }
  }

  /** A quote of `b` glued after `a` keeps an odd run before it when `a`
      ends in an even run. */
  lemma QuoteAfterAppend(a: string, b: string, j: nat)
    requires BackslashesEnding(a) % 2 == 0
    requires j < |b| && BackslashesEnding(b[..j]) % 2 == 1
    ensures BackslashesEnding((a + b)[..|a| + j]) % 2 == 1
  {
    assert (a + b)[..|a| + j] == a + b[..j];
    TrailingBackslashesAppend(a, b[..j]);
  }

  lemma QuoteInPrefix(a: string, b: string, k: nat)
    requires QuotesAfterOddRuns(a)
    requires k < |a| && (a + b)[k] == '\''
    ensures BackslashesEnding((a + b)[..k]) % 2 == 1
  {
    assert (a + b)[..k] == a[..k];
    assert a[k] == '\'';
  }

  lemma QuoteInSuffix(a: string, b: string, k: nat)
    requires BackslashesEnding(a) % 2 == 0 && QuotesAfterOddRuns(b)
    requires |a| <= k < |a| + |b| && (a + b)[k] == '\''
    ensures BackslashesEnding((a + b)[..k]) % 2 == 1
  {
    var j := k - |a|;
    assert b[j] == '\'';
    QuoteAfterAppend(a, b, j);
  }

  /** Gluing a text that ends in an even run to one whose quotes follow odd
      runs keeps every quote after an odd run. */
  lemma QuotesAfterOddRunsAppend(a: string, b: string)
    requires QuotesAfterOddRuns(a) && BackslashesEnding(a) % 2 == 0
    requires QuotesAfterOddRuns(b)
    ensures QuotesAfterOddRuns(a + b)
  {
    var t := a + b;
    forall k | 0 <= k < |t| && t[k] == '\''
      ensures BackslashesEnding(t[..k]) % 2 == 1
    {
      if k < |a| {
        QuoteInPrefix(a, b, k);
      } else {
        QuoteInSuffix(a, b, k);
      }
    }
  }

  /** In the one-pass text, each quote follows an odd run of backslashes. */
  lemma {:induction false} EscapeEachQuotes(s: string)
    ensures QuotesAfterOddRuns(EscapeEach(s))
    decreases |s|
  {
    if s != [] {
      EscapeEachQuotes(s[1..]);
      EscapeCharRun(s[0]);
      QuotesAfterOddRunsAppend(EscapeChar(s[0]), EscapeEach(s[1..]));
    }
  }

  /** Inside a text literal every quote but the two around it is preceded by
      an odd run of backslashes, and the closing quote by an even one, so the
      literal ends exactly at its closing quote. */
  lemma EscapedQuotes(s: string)
    ensures var r := EscapeMysql(Text(s));
      && (forall k :: 0 < k < |r| - 1 && r[k] == '\'' ==> BackslashesEnding(r[..k]) % 2 == 1)
      && BackslashesEnding(r[..|r| - 1]) % 2 == 0
  {
    EscapeTextOnePass(s);
    EscapeEachQuotes(s);
    EscapeEachEvenEnd(s);
    var t := EscapeEach(s);
    var r := EscapeMysql(Text(s));
    assert r == "'" + t + "'";
    assert BackslashesEnding("'") == 0;
    forall k | 0 < k < |r| - 1 && r[k] == '\''
      ensures BackslashesEnding(r[..k]) % 2 == 1
    {
      assert r[..k] == "'" + t[..k - 1];
      assert t[k - 1] == r[k];
      TrailingBackslashesAppend("'", t[..k - 1]);
    }
    assert r[..|r| - 1] == "'" + t;
    TrailingBackslashesAppend("'", t);
  }

  // ---------------------------------------------------------------------------
  // Reading literals back

  function DigitOf(c: char): nat
    requires IsDigit(c)
  {
    c as int - '0' as int
  }

  /** The number a string of decimal digits spells. */
  function DigitsValue(d: string): nat
    requires forall i :: 0 <= i < |d| ==> IsDigit(d[i])
    decreases |d|
  {
    if d == [] then 0 else DigitsValue(d[..|d| - 1]) * 10 + DigitOf(d[|d| - 1])
  }

  lemma {:induction false} NatToStringValue(n: nat)
    ensures DigitsValue(NatToString(n)) == n
    decreases n
  {
    if n >= 10 {
      var s := NatToString(n);
      assert s[..|s| - 1] == NatToString(n / 10);
      NatToStringValue(n / 10);
    }
  }

  /** A leading run of digits as a number, and what follows it. */
  function ReadNat(t: string): (r: Option<(nat, string)>)
    ensures r.Some? ==> |r.value.1| < |t|
  {
    var n := LeadingRun(t, IsDigit);
    if n == 0 then None else Some((DigitsValue(t[..n]), t[n..]))
  }

  /** An optional minus sign and a run of digits. */
  function ReadInt(t: string): (r: Option<(int, string)>)
    ensures r.Some? ==> |r.value.1| < |t|
  {
    if t != [] && t[0] == '-' then
      match ReadNat(t[1..])
      case None => None
      case Some((n, rest)) => Some((-(n as int), rest))
    else
      match ReadNat(t)
      case None => None
      case Some((n, rest)) => Some((n as int, rest))
  }

  /** The text up to the first quote no backslash escapes, unescaped, and
      what follows that quote. */
  function ReadText(t: string): (r: Option<(string, string)>)
    ensures r.Some? ==> |r.value.1| < |t|
    decreases |t|
  {
    if t == [] then None
    else if t[0] == '\'' then Some(([], t[1..]))
    else if t[0] == '\\' then
      if |t| < 2 then None
      else
        match ReadText(t[2..])
        case None => None
        case Some((s, rest)) => Some(([t[1]] + s, rest))
    else
      match ReadText(t[1..])
      case None => None
      case Some((s, rest)) => Some(([t[0]] + s, rest))
  }

  /** One literal: NULL, a quoted text or an integer. */
  function ReadValue(t: string): (r: Option<(SqlValue, string)>)
    ensures r.Some? ==> |r.value.1| < |t|
  {
    if |t| >= 4 && t[..4] == "NULL" then Some((Null, t[4..]))
    else if t != [] && t[0] == '\'' then
      match ReadText(t[1..])
      case None => None
      case Some((s, rest)) => Some((Text(s), rest))
    else
      match ReadInt(t)
      case None => None
      case Some((i, rest)) => Some((Int(i), rest))
  }

  /** One or more literals separated by ", ". */
  function ReadValues(t: string): (r: Option<seq<SqlValue>>)
    decreases |t|
  {
    match ReadValue(t)
    case None => None
    case Some((v, rest)) =>
      if rest == [] then Some([v])
      else if |rest| >= 2 && rest[..2] == ", " then
        match ReadValues(rest[2..])
        case None => None
        case Some(vs) => Some([v] + vs)
      else None
  }

  /** A list of literals, possibly empty. */
  function ReadValueList(t: string): Option<seq<SqlValue>> {
    if t == [] then Some([]) else ReadValues(t)
  }

  lemma {:induction false} LeadingRunOfPrefix(a: string, b: string, p: char -> bool)
    requires forall i :: 0 <= i < |a| ==> p(a[i])
    requires b == [] || !p(b[0])
    ensures LeadingRun(a + b, p) == |a|
    decreases |a|
  {
    if a == [] {
      assert a + b == b;
    } else {
      assert (a + b)[0] == a[0] && (a + b)[1..] == a[1..] + b;
      LeadingRunOfPrefix(a[1..], b, p);
    }
  }

  lemma ReadNatWritten(n: nat, rest: string)
    requires rest == [] || !IsDigit(rest[0])
    ensures ReadNat(NatToString(n) + rest) == Some((n, rest))
  {
    var d := NatToString(n);
    LeadingRunOfPrefix(d, rest, IsDigit);
    assert (d + rest)[..|d|] == d && (d + rest)[|d|..] == rest;
    NatToStringValue(n);
  }

  lemma {:induction false} ReadTextWritten(s: string, rest: string)
    ensures ReadText(EscapeEach(s) + "'" + rest) == Some((s, rest))
    decreases |s|
  {
    var t := EscapeEach(s) + "'" + rest;
    if s == [] {
      assert EscapeEach(s) == [];
      assert t == "'" + rest;
      assert t[0] == '\'' && t[1..] == rest;
    } else {
      var tail := EscapeEach(s[1..]) + "'" + rest;
      assert t == EscapeChar(s[0]) + tail;
      ReadTextWritten(s[1..], rest);
      if s[0] == '\\' || s[0] == '\'' {
        assert t[0] == '\\' && t[1] == s[0] && t[2..] == tail;
        assert ReadText(t) == Some(([s[0]] + s[1..], rest));
      } else {
        assert t[0] == s[0] && t[1..] == tail;
        assert ReadText(t) == Some(([s[0]] + s[1..], rest));
      }
      assert [s[0]] + s[1..] == s;
    }
  }

  lemma ReadIntWritten(i: int, rest: string)
    requires rest == [] || rest[0] == ','
    ensures ReadValue(IntToString(i) + rest) == Some((Int(i), rest))
  {
    var t := IntToString(i) + rest;
    if i < 0 {
      assert t == "-" + (NatToString(-i) + rest);
      assert t[0] == '-' && t[1..] == NatToString(-i) + rest;
      ReadNatWritten(-i, rest);
      assert ReadInt(t) == Some((i, rest));
    } else {
      assert t == NatToString(i) + rest;
      assert IsDigit(t[0]);
      ReadNatWritten(i, rest);
      assert ReadInt(t) == Some((i, rest));
    }
  }

  lemma ReadTextLiteralWritten(s: string, rest: string)
    ensures ReadValue(EscapeMysql(Text(s)) + rest) == Some((Text(s), rest))
  {
    var e := EscapeText(s);
    EscapeTextOnePass(s);
    var inner := e + "'" + rest;
    var t := "'" + inner;
    assert EscapeMysql(Text(s)) + rest == t;
    assert t[0] == '\'' && t[1..] == inner;
    ReadTextWritten(s, rest);
  }

  /** Each literal reads back as the value it was written from, as long as
      what follows it does not continue it (the separator or the end). */
  lemma ReadValueWritten(v: SqlValue, rest: string)
    requires rest == [] || rest[0] == ','
    ensures ReadValue(EscapeMysql(v) + rest) == Some((v, rest))
  {
    match v
    case Null =>
      var t := EscapeMysql(v) + rest;
      assert t[..4] == "NULL" && t[4..] == rest;
    case Int(i) =>
      ReadIntWritten(i, rest);
    case Text(s) =>
      ReadTextLiteralWritten(s, rest);
  }

  /** Two values are written as the same literal only when they are the
      same value, whatever their kinds. */
  lemma EscapeMysqlInjective(a: SqlValue, b: SqlValue)
    ensures EscapeMysql(a) == EscapeMysql(b) <==> a == b
  {
    ReadValueWritten(a, []);
    ReadValueWritten(b, []);
    assert EscapeMysql(a) + [] == EscapeMysql(a) && EscapeMysql(b) + [] == EscapeMysql(b);
  }

  // ---------------------------------------------------------------------------
  // The INSERT line

  /** Each value rendered, in order. */
  function Literals(vs: seq<SqlValue>): (ls: seq<string>)
    ensures |ls| == |vs|
    decreases |vs|
  {
    if vs == [] then [] else [EscapeMysql(vs[0])] + Literals(vs[1..])
  }

  lemma {:induction false} ReadValuesWritten(vs: seq<SqlValue>)
    requires vs != []
    ensures ReadValues(Join(", ", Literals(vs))) == Some(vs)
    decreases |vs|
  {
    var ls := Literals(vs);
    if |vs| == 1 {
      assert ls == [EscapeMysql(vs[0])];
      assert Join(", ", ls) == EscapeMysql(vs[0]) + [];
      ReadValueWritten(vs[0], []);
      assert ReadValues(Join(", ", ls)) == Some([vs[0]]);
      assert vs == [vs[0]];
    } else {
      var more := Join(", ", Literals(vs[1..]));
      assert ls[1..] == Literals(vs[1..]);
      assert Join(", ", ls) == EscapeMysql(vs[0]) + (", " + more);
      ReadValueWritten(vs[0], ", " + more);
      assert (", " + more)[..2] == ", " && (", " + more)[2..] == more;
      ReadValuesWritten(vs[1..]);
      assert [vs[0]] + vs[1..] == vs;
    }
  }

  /** The `VALUES (...)` list reads back as exactly the values, in order. */
  lemma ValueListRoundTrip(vs: seq<SqlValue>)
    ensures ReadValueList(Join(", ", Literals(vs))) == Some(vs)
  {
    if vs != [] {
      var ls := Literals(vs);
      JoinStartsWithFirst(", ", ls);
      assert Join(", ", ls) != [];
      ReadValuesWritten(vs);
    }
  }

  /** The row's values in column order. */
  function RowValues(cols: seq<string>, row: map<string, SqlValue>): (vs: seq<SqlValue>)
    requires forall i :: 0 <= i < |cols| ==> cols[i] in row
    ensures |vs| == |cols|
    decreases |cols|
  {
    if cols == [] then [] else [row[cols[0]]] + RowValues(cols[1..], row)
  }

  /** The line the dump writes for one row of `table`. */
  function InsertLine(table: string, cols: seq<string>, row: map<string, SqlValue>): string
    requires forall i :: 0 <= i < |cols| ==> cols[i] in row
  {
    "INSERT INTO " + table + " (" + Join(", ", cols) + ") VALUES ("
      + Join(", ", Literals(RowValues(cols, row))) + ");\n"
  }

  lemma {:induction false} RowValuesAt(cols: seq<string>, row: map<string, SqlValue>, i: nat)
    requires forall j :: 0 <= j < |cols| ==> cols[j] in row
    requires i < |cols|
    ensures RowValues(cols, row)[i] == row[cols[i]]
    decreases i
  {
    if i > 0 {
      RowValuesAt(cols[1..], row, i - 1);
    }
  }

  /** An INSERT line names the columns in order and lists one literal per
      column that reads back as that column's value. */
  lemma InsertLineValues(table: string, cols: seq<string>, row: map<string, SqlValue>, i: nat)
    requires forall j :: 0 <= j < |cols| ==> cols[j] in row
    requires i < |cols|
    ensures var values := Join(", ", Literals(RowValues(cols, row)));
      && InsertLine(table, cols, row) ==
           "INSERT INTO " + table + " (" + Join(", ", cols) + ") VALUES (" + values + ");\n"
      && ReadValueList(values).Some?
      && |ReadValueList(values).value| == |cols|
      && ReadValueList(values).value[i] == row[cols[i]]
  {
    ValueListRoundTrip(RowValues(cols, row));
    RowValuesAt(cols, row, i);
  }
}
