/** Publish-date parsing (`convertDate` and `convertMonthToNumber`). The date
    element's text holds `(<month> <day>, <year>)`; the parser cuts out the
    parenthesised part, deletes one comma, splits on single spaces and looks
    the month name up in a twelve-entry table.

    The table's names are locale-specific; here they are an abstract
    `MonthTable` of twelve strings. Building a JavaScript `Map` by inserting
    entry `k` under name `k` for `k = 0, …, 11` lets a later insertion of an
    equal name overwrite an earlier one, and the lookup below keeps that
    behaviour, so nothing depends on the names being distinct except the
    lemmas that say so. */
module DateParse {
  import opened Options
  import opened Strings

  type MonthTable = t: seq<string> | |t| == 12
    witness ["", "", "", "", "", "", "", "", "", "", "", ""]

  /** `convertMonth.get(name)` on the map built from `t`: the last index
      holding `name`, or nothing when no entry does. */
  function MapGet(t: seq<string>, name: string): (r: Option<nat>)
    ensures r.None? <==> name !in t
    ensures r.Some? ==> r.value < |t| && t[r.value] == name && name !in t[r.value + 1..]
  {
    if |t| == 0 then None
    else if t[|t| - 1] == name then Some(|t| - 1)
    else
      var r := MapGet(t[..|t| - 1], name);
      assert name in t ==> name in t[..|t| - 1] by {
        if name in t {
          var k :| 0 <= k < |t| && t[k] == name;
          assert k < |t| - 1 && t[..|t| - 1][k] == name;
        }
      }
      assert r.Some? ==> t[r.value + 1..] == t[..|t| - 1][r.value + 1..] + [t[|t| - 1]];
      r
  }

  /** `convertMonthToNumber` as written: the looked-up index, with `-1` both
      for an unknown name and for index 0, which the `!res` test takes for
      "not found". */
  function ConvertMonthToNumber(t: MonthTable, name: string): (m: int)
    ensures -1 <= m <= 11
    ensures m == -1 <==> name !in t || MapGet(t, name) == Some(0)
    ensures m != -1 ==> t[m] == name
  {
    match MapGet(t, name)
    case None => -1
    case Some(k) => if k == 0 then -1 else k
  }

  /** With distinct names, entry `k` of months 1 to 11 maps to `k`, and
      every name outside the table maps to -1. */
  lemma MonthLookup(t: MonthTable, name: string)
    requires Distinct(t)
    ensures forall k :: 1 <= k < 12 && t[k] == name ==> ConvertMonthToNumber(t, name) == k
    ensures name !in t ==> ConvertMonthToNumber(t, name) == -1
  {
    if name in t {
      var k := MapGet(t, name).value;
      assert forall j :: 0 <= j < 12 && t[j] == name ==> j == k;
    }
  }

  /** The first month's name is reported exactly like a name that is not in
      the table at all. */
  lemma FirstMonthLost(t: MonthTable, unknown: string)
    requires Distinct(t)
    requires unknown !in t
    ensures ConvertMonthToNumber(t, t[0]) == -1
    ensures ConvertMonthToNumber(t, t[0]) == ConvertMonthToNumber(t, unknown)
  {
    var k := MapGet(t, t[0]).value;
    assert t[k] == t[0];
  }

  /** The presence-tagged lookup the month table is evidently meant to
      provide: the first index holding `name`, or nothing. */
  function MonthIndex(t: MonthTable, name: string): (r: Option<nat>)
    ensures r.None? <==> name !in t
    ensures r.Some? ==> r.value < 12 && t[r.value] == name
  {
    var i := IndexOf(t, name);
    if i < 0 then None else Some(i)
  }

  /** With distinct names, `MonthIndex` inverts the table on all twelve
      entries, the first included, and keeps "not found" apart from every
      month. */
  lemma MonthIndexInverse(t: MonthTable, name: string)
    requires Distinct(t)
    ensures forall k :: 0 <= k < 12 && t[k] == name ==> MonthIndex(t, name) == Some(k)
    ensures MonthIndex(t, name).Some? ==> t[MonthIndex(t, name).value] == name
    ensures name !in t ==> MonthIndex(t, name) != MonthIndex(t, t[0])
  {
  }

  /** What `convertDate` hands to the `Date` constructor: the month number
      and the raw day and year tokens. A missing token is JavaScript's
      `undefined` from destructuring a short array. */
  datatype DateFields = DateFields(month: int, day: Option<string>, year: Option<string>)

  /** `date.substring(date.indexOf("(") + 1, date.indexOf(")"))`. */
  function Parenthesised(text: string): (r: string)
    ensures |r| <= |text|
    ensures '(' !in text && ')' !in text ==> r == []
  {
    Substring(text, IndexOf(text, '(') + 1, IndexOf(text, ')'))
  }

  /** The tokens of the parenthesised part, first comma deleted, split on
      single spaces. */
  function DateTokens(text: string): (tokens: seq<string>)
    ensures |tokens| >= 1
    ensures FreeOf(tokens, ' ')
  {
    var inner := RemoveFirst(Parenthesised(text), ',');
    SplitPieces(inner, ' ');
    Split(inner, ' ')
  }

  function TokenAt(tokens: seq<string>, k: nat): (r: Option<string>)
    ensures r.Some? <==> k < |tokens|
    ensures r.Some? ==> r.value == tokens[k]
  {
    if k < |tokens| then Some(tokens[k]) else None
  }

  /** `convertDate`: the first three tokens are the month name, the day and
      the year. The `Date` constructor never throws, so the `catch` branch is
      unreachable and the function never yields `undefined`. */
  function ConvertDate(t: MonthTable, text: string): (d: DateFields)
    ensures -1 <= d.month <= 11
    ensures d.year.Some? ==> d.day.Some?
    ensures d.day.Some? ==> ' ' !in d.day.value
    ensures d.year.Some? ==> ' ' !in d.year.value
  {
    var tokens := DateTokens(text);
    DateFields(ConvertMonthToNumber(t, tokens[0]), TokenAt(tokens, 1), TokenAt(tokens, 2))
  }

  /** When the first `(` comes before the first `)`, the parser reads exactly
      the text strictly between them. */
  lemma ParenthesisedBetween(text: string)
    requires '(' in text && ')' in text
    requires IndexOf(text, '(') < IndexOf(text, ')')
    ensures Parenthesised(text) == text[IndexOf(text, '(') + 1..IndexOf(text, ')')]
  {
  }

  /** A date token: no parenthesis, comma or space inside. */
  predicate PlainToken(s: string) {
    '(' !in s && ')' !in s && ',' !in s && ' ' !in s
  }

  /** A well-formed date text `pre(<month> <day>, <year>)post` yields its
      month, day and year, in that order. */
  lemma ConvertDateWellFormed(t: MonthTable, pre: string, month: string, day: string, year: string, post: string)
    requires '(' !in pre && ')' !in pre
    requires PlainToken(month) && PlainToken(day) && PlainToken(year)
    ensures ConvertDate(t, pre + "(" + month + " " + day + ", " + year + ")" + post)
      == DateFields(ConvertMonthToNumber(t, month), Some(day), Some(year))
  {
    DateTokensWellFormed(pre, month, day, year, post);
  }

  lemma DateTokensWellFormed(pre: string, month: string, day: string, year: string, post: string)
    requires '(' !in pre && ')' !in pre
    requires PlainToken(month) && PlainToken(day) && PlainToken(year)
    ensures DateTokens(pre + "(" + month + " " + day + ", " + year + ")" + post) == [month, day, year]
  {
    var inner := month + " " + day + ", " + year;
    assert ')' !in inner by {
      assert inner == month + [' '] + day + [','] + [' '] + year;
    }
    var text := pre + "(" + month + " " + day + ", " + year + ")" + post;
    assert text == pre + "(" + inner + ")" + post;
    ParenthesisedOf(pre, inner, post);
    assert Parenthesised(text) == inner;
    RemoveCommaOf(month, day, year);
    SplitThree(month, day, year);
  }

  lemma SplitThree(month: string, day: string, year: string)
    requires ' ' !in month && ' ' !in day && ' ' !in year
    ensures Split(month + " " + day + " " + year, ' ') == [month, day, year]
  {
    JoinCons(day, [year], ' ');
    JoinCons(month, [day, year], ' ');
    assert [month] + [day, year] == [month, day, year];
    assert month + " " + day + " " + year == month + [' '] + (day + [' '] + year);
    JoinSplit([month, day, year], ' ');
  }

  lemma ParenthesisedOf(pre: string, inner: string, post: string)
    requires '(' !in pre && ')' !in pre && ')' !in inner
    ensures Parenthesised(pre + "(" + inner + ")" + post) == inner
  {
    var text := pre + "(" + inner + ")" + post;
    assert text == pre + ['('] + (inner + ")" + post);
    IndexOfAfter(pre, '(', inner + ")" + post);
    var upto := pre + "(" + inner;
    assert ')' !in upto by {
      assert upto == pre + ['('] + inner;
    }
    assert text == upto + [')'] + post;
    IndexOfAfter(upto, ')', post);
    assert text[|pre| + 1..|upto|] == inner;
  }

  lemma RemoveCommaOf(month: string, day: string, year: string)
    requires ',' !in month && ',' !in day
    ensures RemoveFirst(month + " " + day + ", " + year, ',') == month + " " + day + " " + year
  {
    var head := month + " " + day;
    assert ',' !in head;
    assert month + " " + day + ", " + year == head + [','] + (" " + year);
    RemoveFirstAt(head, ',', " " + year);
    assert head + (" " + year) == month + " " + day + " " + year;
  }

  /** The month of a date text under the corrected, presence-tagged lookup. */
  function DateMonth(t: MonthTable, text: string): Option<nat> {
    MonthIndex(t, DateTokens(text)[0])
  }

  /** Under the corrected lookup every month of a well-formed date text is
      recovered, the first one included. */
  lemma DateMonthWellFormed(t: MonthTable, pre: string, k: nat, day: string, year: string, post: string)
    requires Distinct(t) && k < 12
    requires '(' !in pre && ')' !in pre
    requires PlainToken(t[k]) && PlainToken(day) && PlainToken(year)
    ensures DateMonth(t, pre + "(" + t[k] + " " + day + ", " + year + ")" + post) == Some(k)
  {
    DateTokensWellFormed(pre, t[k], day, year, post);
    MonthIndexInverse(t, t[k]);
  }

  /** Text without parentheses yields an empty month token and neither day
      nor year. */
  lemma ConvertDateNoParentheses(t: MonthTable, text: string)
    requires '(' !in text && ')' !in text
    ensures ConvertDate(t, text) == DateFields(ConvertMonthToNumber(t, ""), None, None)
  {
    assert Parenthesised(text) == [];
    assert IndexOf([], ' ') == -1;
  }
}
