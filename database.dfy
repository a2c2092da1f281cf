/** Storing comics and filling the gap between the stored comics and the newest remote
    comic (src/database.rs). */
module Database {
  import opened Comics
  import opened Numerals
  import opened Request

  // ---------------------------------------------------------------------------
  // Quote escaping for SQL string literals

  /** `s.replace("'", "''")`: every single quote doubled. */
  function Escape(s: string): (r: string)
    ensures |r| == |s| + multiset(s)['\'']
  {
    if s == [] then []
    else
      assert s == [s[0]] + s[1..];
      (if s[0] == '\'' then "''" else [s[0]]) + Escape(s[1..])
  }

  /** `t.replace("''", "'")`: each pair of quotes, scanning from the left, made one. */
  function Unescape(t: string): (r: string)
    ensures |r| <= |t|
  {
    if |t| >= 2 && t[0] == '\'' && t[1] == '\'' then "'" + Unescape(t[2..])
    else if t == [] then []
    else [t[0]] + Unescape(t[1..])
  }

  /** Every quote of `t` stands in a pair with the next character, so `t` cannot end a
      quoted SQL literal early. */
  predicate QuotesPaired(t: string)
  {
    if t == [] then true
    else if t[0] == '\'' then |t| >= 2 && t[1] == '\'' && QuotesPaired(t[2..])
    else QuotesPaired(t[1..])
  }

  /** Escaping pairs every quote, and undoing the doubling recovers the input. */
  lemma {:induction false} EscapeRoundTrip(s: string)
    ensures QuotesPaired(Escape(s))
    ensures Unescape(Escape(s)) == s
  {
    if s != [] {
      var e := Escape(s[1..]);
      EscapeRoundTrip(s[1..]);
      if s[0] == '\'' {
        assert Escape(s) == "''" + e;
        assert ("''" + e)[2..] == e;
      } else {
        assert Escape(s) == [s[0]] + e;
        assert ([s[0]] + e)[1..] == e;
      }
    }
  }

  /** Conversely, every string whose quotes are paired is the escaping of its unescaping. */
  lemma {:induction false} UnescapeRoundTrip(t: string)
    requires QuotesPaired(t)
    ensures Escape(Unescape(t)) == t
    decreases |t|
  {
    if t != [] {
      if t[0] == '\'' {
        var u := Unescape(t[2..]);
        UnescapeRoundTrip(t[2..]);
        assert Unescape(t) == "'" + u;
        assert ("'" + u)[1..] == u;
        assert t == "''" + t[2..];
      } else {
        var u := Unescape(t[1..]);
        UnescapeRoundTrip(t[1..]);
        assert Unescape(t) == [t[0]] + u;
        assert ([t[0]] + u)[1..] == u;
        assert t == [t[0]] + t[1..];
      }
    }
  }

  // ---------------------------------------------------------------------------
  // The INSERT statement of `save_comic` and the row it stores

  /** A quoted SQL string literal holding `s`. */
  function Literal(s: string): string
  {
    "'" + Escape(s) + "'"
  }

  /** The text SQLite reads from a quoted literal: the inner part with quote pairs made one. */
  function LiteralText(literal: string): string
    requires |literal| >= 2
  {
    Unescape(literal[1..|literal| - 1])
  }

  /** A value of the VALUES list: a quoted text or a bare number. */
  datatype SqlValue = Text(text: string) | Integer(number: nat)

  function Render(v: SqlValue): string
  {
    match v
    case Text(s) => Literal(s)
    case Integer(n) => Decimal(n)
  }

  /** The values separated by `, ` and closed by `)`. */
  function ValuesText(vs: seq<SqlValue>): string
  {
    if vs == [] then []
    else Render(vs[0]) + (if |vs| == 1 then ")" else ", " + ValuesText(vs[1..]))
  }

  /** The comic's fields in the column order of the statement. */
  function Values(c: XkcdComic): seq<SqlValue>
  {
    [Text(c.title), Text(c.alt), Text(c.day), Text(c.img), Text(c.month), Text(c.news),
     Text(c.link), Integer(c.num), Text(c.safeTitle), Text(c.transcript), Text(c.year)]
  }

  const InsertHeader: string :=
    "INSERT INTO comics (title, alt, day, img, month, news, link, num, safe_title, transcript, year)\n"
    + "            VALUES ("

  /** The statement `save_comic` executes for a comic. */
  function InsertStatement(c: XkcdComic): string
  {
    InsertHeader + ValuesText(Values(c))
  }

  /** One row of the `comics` table. `num` is the text SQLite hands back for the column
      (None for NULL); the other columns are the stored text. */
  datatype Row = Row(
    num: Option<string>,
    title: string,
    alt: string,
    day: string,
    img: string,
    month: string,
    news: string,
    link: string,
    safeTitle: string,
    transcript: string,
    year: string)

  /** The row a successful `save_comic` adds: the number's decimal text and the comic's
      text columns (LiteralKeepsText: each literal of the statement reads back as the text
      it was built from). */
  function RowOf(c: XkcdComic): Row
  {
    Row(Some(Decimal(c.num)), c.title, c.alt, c.day, c.img, c.month, c.news, c.link,
        c.safeTitle, c.transcript, c.year)
  }

  /** Thanks to the escaping, a literal of the statement reads back as exactly the text it
      was built from, whatever quotes that text contains. */
  lemma LiteralKeepsText(s: string)
    ensures LiteralText(Literal(s)) == s
  {
    var lit := Literal(s);
    assert lit[1..|lit| - 1] == Escape(s);
    EscapeRoundTrip(s);
  }

  /** The statement determines the comic: two comics with the same INSERT statement are the
      same comic, so no field's text, quotes included, can spill into the next column. */
  lemma InsertStatementInjective(c: XkcdComic, d: XkcdComic)
    ensures InsertStatement(c) == InsertStatement(d) ==> c == d
  {
    var n := |InsertHeader|;
    assert InsertStatement(c)[n..] == ValuesText(Values(c));
    assert InsertStatement(d)[n..] == ValuesText(Values(d));
    ValuesTextInjective(Values(c), Values(d));
  }

  /** Different value lists render differently. */
  lemma {:induction false} ValuesTextInjective(vs: seq<SqlValue>, ws: seq<SqlValue>)
    ensures ValuesText(vs) == ValuesText(ws) ==> vs == ws
    decreases |vs|
  {
    if vs != [] && ws != [] {
      ValuesTextInjective(vs[1..], ws[1..]);
      ValuesTextStep(vs, ws);
    } else {
      assert vs != [] ==> |ValuesText(vs)| >= 1;
      assert ws != [] ==> |ValuesText(ws)| >= 1;
    }
  }

  /** Equal renderings start with the same value, and the rest is rendered equally. */
  lemma ValuesTextStep(vs: seq<SqlValue>, ws: seq<SqlValue>)
    requires vs != [] && ws != []
    requires ValuesText(vs[1..]) == ValuesText(ws[1..]) ==> vs[1..] == ws[1..]
    ensures ValuesText(vs) == ValuesText(ws) ==> vs == ws
  {
    var x := if |vs| == 1 then ")" else ", " + ValuesText(vs[1..]);
    var y := if |ws| == 1 then ")" else ", " + ValuesText(ws[1..]);
    assert ValuesText(vs) == Render(vs[0]) + x && ValuesText(ws) == Render(ws[0]) + y;
    RenderThenText(vs[0], ws[0], x, y);
    if ValuesText(vs) == ValuesText(ws) {
      assert x == y && vs[0] == ws[0];
      if |vs| == 1 {
        assert |y| == 1;
      } else {
        assert y[0] == ',';
        assert x[2..] == ValuesText(vs[1..]) && y[2..] == ValuesText(ws[1..]);
      }
      assert vs == [vs[0]] + vs[1..] && ws == [ws[0]] + ws[1..];
    }
  }

  /** A rendered value followed by `,` or `)` ends where its text ends: a literal at its
      closing quote, a number at its last digit. */
  lemma RenderThenText(v: SqlValue, w: SqlValue, x: string, y: string)
    requires x != [] && (x[0] == ',' || x[0] == ')')
    requires y != [] && (y[0] == ',' || y[0] == ')')
    ensures Render(v) + x == Render(w) + y ==> v == w && x == y
  {
    match (v, w)
    case (Text(s), Text(u)) => LiteralThenText(s, u, x, y);
    case (Integer(m), Integer(n)) => DecimalThenText(m, n, x, y);
    case (Text(s), Integer(n)) =>
      assert (Render(v) + x)[0] == '\'' && (Render(w) + y)[0] == Decimal(n)[0];
    case (Integer(m), Text(u)) =>
      assert (Render(v) + x)[0] == Decimal(m)[0] && (Render(w) + y)[0] == '\'';
  }

  /** A literal followed by text that does not start with a quote ends at its closing
      quote, so the literal and the text after it are both determined. */
  lemma LiteralThenText(s: string, u: string, x: string, y: string)
    requires x == [] || x[0] != '\''
    requires y == [] || y[0] != '\''
    ensures Literal(s) + x == Literal(u) + y ==> s == u && x == y
  {
    var p, q := "'" + x, "'" + y;
    AppendAssoc("'" + Escape(s), "'", x);
    AppendAssoc("'", Escape(s), p);
    AppendAssoc("'" + Escape(u), "'", y);
    AppendAssoc("'", Escape(u), q);
    assert ("'" + (Escape(s) + p))[1..] == Escape(s) + p;
    assert ("'" + (Escape(u) + q))[1..] == Escape(u) + q;
    assert p[1..] == x && q[1..] == y;
    EscapeThenClose(s, u, p, q);
  }

  lemma AppendAssoc(a: string, b: string, c: string)
    ensures (a + b) + c == a + (b + c)
  {
  }

  /** `p` starts with a quote that is not followed by another: the end of a literal. */
  predicate ClosesLiteral(p: string)
  {
    |p| >= 1 && p[0] == '\'' && (|p| == 1 || p[1] != '\'')
  }

  lemma {:induction false} EscapeThenClose(s: string, u: string, p: string, q: string)
    requires ClosesLiteral(p) && ClosesLiteral(q)
    ensures Escape(s) + p == Escape(u) + q ==> s == u && p == q
    decreases |s|
  {
    if s != [] && u != [] {
      EscapeThenClose(s[1..], u[1..], p, q);
      EscapeThenCloseStep(s, u, p, q);
    } else {
      EscapeThenCloseEnd(s, u, p, q);
    }
  }

  /** Equal escaped texts start with the same character of the original. */
  lemma EscapeThenCloseStep(s: string, u: string, p: string, q: string)
    requires s != [] && u != []
    requires Escape(s[1..]) + p == Escape(u[1..]) + q ==> s[1..] == u[1..] && p == q
    ensures Escape(s) + p == Escape(u) + q ==> s == u && p == q
  {
    var hs := if s[0] == '\'' then "''" else [s[0]];
    var hu := if u[0] == '\'' then "''" else [u[0]];
    var ts, tu := Escape(s[1..]) + p, Escape(u[1..]) + q;
    var t, t' := hs + ts, hu + tu;
    assert Escape(s) == hs + Escape(s[1..]) && Escape(u) == hu + Escape(u[1..]);
    AppendAssoc(hs, Escape(s[1..]), p);
    AppendAssoc(hu, Escape(u[1..]), q);
    assert t[0] == s[0] && t'[0] == u[0];
    if t == t' {
      assert hs == hu;
      assert ts == t[|hs|..] == tu;
      SameHeadAndTail(s, u);
    }
  }

  lemma SameHeadAndTail(s: string, u: string)
    requires s != [] && u != [] && s[0] == u[0] && s[1..] == u[1..]
    ensures s == u
  {
    assert s == [s[0]] + s[1..] && u == [u[0]] + u[1..];
  }

  /** When one escaped text is empty, so is the other: the other's first character would
      have to be an unpaired quote. */
  lemma EscapeThenCloseEnd(s: string, u: string, p: string, q: string)
    requires s == [] || u == []
    requires ClosesLiteral(p) && ClosesLiteral(q)
    ensures Escape(s) + p == Escape(u) + q ==> s == u && p == q
  {
    var t, t' := Escape(s) + p, Escape(u) + q;
    EscapeStart(s);
    EscapeStart(u);
    assert s == [] ==> t == p;
    assert u == [] ==> t' == q;
    assert s != [] ==> |t| >= 2 && t[0] == Escape(s)[0] && (|Escape(s)| >= 2 ==> t[1] == Escape(s)[1]);
    assert u != [] ==> |t'| >= 2 && t'[0] == Escape(u)[0] && (|Escape(u)| >= 2 ==> t'[1] == Escape(u)[1]);
  }

  /** An escaped text that starts with a quote starts with a pair of them. */
  lemma EscapeStart(s: string)
    ensures s != [] ==> |Escape(s)| >= 1
    ensures s != [] && Escape(s)[0] == '\'' ==> |Escape(s)| >= 2 && Escape(s)[1] == '\''
  {
    if s != [] {
      assert Escape(s) == (if s[0] == '\'' then "''" else [s[0]]) + Escape(s[1..]);
    }
  }

  /** A number followed by a non-digit ends at its last digit, so the number and the text
      after it are both determined. */
  lemma DecimalThenText(m: nat, n: nat, x: string, y: string)
    requires x != [] && !IsDigit(x[0])
    requires y != [] && !IsDigit(y[0])
    ensures Decimal(m) + x == Decimal(n) + y ==> m == n && x == y
  {
    var a, b := Decimal(m), Decimal(n);
    DigitsNotShorter(a, b, x, y);
    DigitsNotShorter(b, a, y, x);
    assert a + x == b + y && |a| == |b| ==> a == (a + x)[..|a|] && b == (b + y)[..|b|];
    assert a + x == b + y && |a| == |b| ==> x == (a + x)[|a|..] && y == (b + y)[|b|..];
    DecimalInjective(m, n);
  }

  lemma DigitsNotShorter(a: string, b: string, x: string, y: string)
    requires AllDigits(b)
    requires x != [] && !IsDigit(x[0])
    ensures a + x == b + y ==> |b| <= |a|
  {
    assert forall k :: 0 <= k < |b| ==> (b + y)[k] == b[k];
    assert (a + x)[|a|] == x[0];
  }

  /** The SQLite connection, reduced to the `comics` table. */
  class Connection {
    var rows: seq<Row>

    constructor (rows: seq<Row>)
      ensures this.rows == rows
    {
      this.rows := rows;
    }
  }

  /** `save_comic`: executes the INSERT; `execute` says whether SQLite accepted the
      statement. A failure is only logged. */
  method SaveComic(connection: Connection, comic: XkcdComic, execute: string -> bool)
    modifies connection
    ensures connection.rows
         == old(connection.rows) + (if execute(InsertStatement(comic)) then [RowOf(comic)] else [])
  {
    if execute(InsertStatement(comic)) {
      connection.rows := connection.rows + [RowOf(comic)];
    }
  }

  /** Whether `execute` accepts the INSERT statement built for a comic. */
  function AcceptedBy(execute: string -> bool): XkcdComic -> bool
  {
    c => execute(InsertStatement(c))
  }

  /** The rows a sequence of `save_comic` calls adds, given which comics' inserts succeed. */
  function InsertedRows(comics: seq<XkcdComic>, accepted: XkcdComic -> bool): seq<Row>
  {
    if comics == [] then []
    else
      var last := comics[|comics| - 1];
      InsertedRows(comics[..|comics| - 1], accepted) + (if accepted(last) then [RowOf(last)] else [])
  }

  lemma InsertedRowsStep(comics: seq<XkcdComic>, c: XkcdComic, accepted: XkcdComic -> bool)
    ensures InsertedRows(comics + [c], accepted)
         == InsertedRows(comics, accepted) + (if accepted(c) then [RowOf(c)] else [])
  {
    assert (comics + [c])[..|comics|] == comics;
  }

  // ---------------------------------------------------------------------------
  // The numbers already stored

  /** The `num` column of the rows, in row order. */
  function NumColumn(rows: seq<Row>): (column: seq<Option<string>>)
    ensures |column| == |rows| && forall j :: 0 <= j < |rows| ==> column[j] == rows[j].num
  {
    if rows == [] then [] else NumColumn(rows[..|rows| - 1]) + [rows[|rows| - 1].num]
  }

  /** `SELECT DISTINCT`: each value once, in order of first occurrence. */
  function Distinct(s: seq<Option<string>>): (r: seq<Option<string>>)
    ensures forall x :: x in r <==> x in s
    ensures forall a, b :: 0 <= a < b < |r| ==> r[a] != r[b]
  {
    if s == [] then []
    else
      var d := Distinct(s[..|s| - 1]);
      var last := s[|s| - 1];
      assert forall x :: x in s <==> x in s[..|s| - 1] || x == last;
      if last in d then d else d + [last]
  }

  /** The number a stored value stands for, if it parses as a `u32`. */
  function ParsedValue(v: Option<string>): Option<U32>
  {
    match v
    case None => None
    case Some(text) => ParseU32(text)
  }

  /** The numbers of the values that `parse` accepts, in order. */
  function Collected(values: seq<Option<string>>, parse: Option<string> -> Option<U32>): seq<U32>
  {
    if values == [] then []
    else
      var last := values[|values| - 1];
      Collected(values[..|values| - 1], parse) + (match parse(last) case Some(n) => [n] case None => [])
  }

  /** A number is collected exactly when some value parses to it. */
  lemma {:induction false} CollectedMembers(values: seq<Option<string>>, parse: Option<string> -> Option<U32>)
    ensures forall n ::
      (n in Collected(values, parse) <==> exists j :: 0 <= j < |values| && parse(values[j]) == Some(n))
  {
    if values != [] {
      var prefix := values[..|values| - 1];
      CollectedMembers(prefix, parse);
      forall n ensures n in Collected(values, parse)
        <==> exists j :: 0 <= j < |values| && parse(values[j]) == Some(n)
      {
        if n in Collected(values, parse) && n !in Collected(prefix, parse) {
          assert parse(values[|values| - 1]) == Some(n);
        }
        if exists j :: 0 <= j < |values| && parse(values[j]) == Some(n) {
          var j :| 0 <= j < |values| && parse(values[j]) == Some(n);
          if j < |prefix| {
            assert prefix[j] == values[j];
          }
        }
      }
    }
  }

  /** The numbers of the values that parse as a `u32`, in order. */
  function ParsedIds(values: seq<Option<string>>): seq<U32>
  {
    Collected(values, ParsedValue)
  }

  /** A number is among the parsed ids exactly when some value parses to it. */
  lemma ParsedIdsMembers(values: seq<Option<string>>)
    ensures forall n ::
      (n in ParsedIds(values) <==> exists j :: 0 <= j < |values| && ParsedValue(values[j]) == Some(n))
  {
    CollectedMembers(values, ParsedValue);
  }

  /** The loop over the query result that fills `found_comics`: only values that parse as a
      `u32` are kept, in order. */
  method LoadFoundComics(values: seq<Option<string>>) returns (found: seq<U32>)
    ensures found == ParsedIds(values)
    ensures forall n :: n in found <==> exists j :: 0 <= j < |values| && ParsedValue(values[j]) == Some(n)
  {
    found := [];
    for j := 0 to |values|
      invariant found == ParsedIds(values[..j])
    {
      assert values[..j + 1][..j] == values[..j];
      match values[j] {
        case Some(text) =>
          match ParseU32(text) {
            case Some(n) => found := found + [n];
            case None =>
          }
        case None =>
      }
    }
    assert values[..|values|] == values;
    ParsedIdsMembers(values);
  }

  /** The numbers `populate_db` finds in the table. */
  function FoundIds(rows: seq<Row>): seq<U32>
  {
    ParsedIds(Distinct(NumColumn(rows)))
  }

  /** A row records number `n` when its `num` text parses to `n`. */
  predicate RowHasId(r: Row, n: U32)
  {
    ParsedValue(r.num) == Some(n)
  }

  lemma FoundIdsMembers(rows: seq<Row>)
    ensures forall n :: n in FoundIds(rows) <==> exists j :: 0 <= j < |rows| && RowHasId(rows[j], n)
  {
    var column := NumColumn(rows);
    var distinct := Distinct(column);
    ParsedIdsMembers(distinct);
    forall n ensures n in FoundIds(rows) <==> exists j :: 0 <= j < |rows| && RowHasId(rows[j], n) {
      if n in FoundIds(rows) {
        var d :| 0 <= d < |distinct| && ParsedValue(distinct[d]) == Some(n);
        assert distinct[d] in column;
        var j :| 0 <= j < |column| && column[j] == distinct[d];
        assert RowHasId(rows[j], n);
      }
      if exists j :: 0 <= j < |rows| && RowHasId(rows[j], n) {
        var j :| 0 <= j < |rows| && RowHasId(rows[j], n);
        assert column[j] in distinct;
        var d :| 0 <= d < |distinct| && distinct[d] == column[j];
        assert ParsedValue(distinct[d]) == Some(n);
      }
    }
  }

  /** After inserting comics, the stored numbers are the old ones plus the numbers of the
      comics whose insert succeeded. */
  lemma FoundAfterInsert(rows: seq<Row>, comics: seq<XkcdComic>, accepted: XkcdComic -> bool)
    ensures forall n ::
      (n in FoundIds(rows + InsertedRows(comics, accepted))
       <==> (n in FoundIds(rows)
             || exists k :: 0 <= k < |comics| && accepted(comics[k]) && comics[k].num == n))
  {
    forall n | n in FoundIds(rows + InsertedRows(comics, accepted))
      ensures n in FoundIds(rows) || exists k :: 0 <= k < |comics| && accepted(comics[k]) && comics[k].num == n
    {
      FoundAfterInsertFrom(rows, comics, accepted, n);
    }
    forall n | n in FoundIds(rows)
      ensures n in FoundIds(rows + InsertedRows(comics, accepted))
    {
      FoundAfterInsertKeeps(rows, comics, accepted, n);
    }
    forall k | 0 <= k < |comics| && accepted(comics[k])
      ensures comics[k].num in FoundIds(rows + InsertedRows(comics, accepted))
    {
      FoundAfterInsertAdds(rows, comics, accepted, k);
    }
  }

  lemma FoundAfterInsertFrom(rows: seq<Row>, comics: seq<XkcdComic>, accepted: XkcdComic -> bool, n: U32)
    requires n in FoundIds(rows + InsertedRows(comics, accepted))
    ensures n in FoundIds(rows) || exists k :: 0 <= k < |comics| && accepted(comics[k]) && comics[k].num == n
  {
    var all := rows + InsertedRows(comics, accepted);
    FoundIdsMembers(all);
    var j :| 0 <= j < |all| && RowHasId(all[j], n);
    if j < |rows| {
      FoundIdsMembers(rows);
      assert RowHasId(rows[j], n);
    } else {
      InsertedRowsMembers(comics, accepted);
      assert all[j] in InsertedRows(comics, accepted);
      var k :| 0 <= k < |comics| && accepted(comics[k]) && all[j] == RowOf(comics[k]);
      ParseDecimal(comics[k].num);
    }
  }

  lemma FoundAfterInsertKeeps(rows: seq<Row>, comics: seq<XkcdComic>, accepted: XkcdComic -> bool, n: U32)
    requires n in FoundIds(rows)
    ensures n in FoundIds(rows + InsertedRows(comics, accepted))
  {
    var all := rows + InsertedRows(comics, accepted);
    FoundIdsMembers(rows);
    FoundIdsMembers(all);
    var j :| 0 <= j < |rows| && RowHasId(rows[j], n);
    assert all[j] == rows[j];
  }

  lemma FoundAfterInsertAdds(rows: seq<Row>, comics: seq<XkcdComic>, accepted: XkcdComic -> bool, k: nat)
    requires k < |comics| && accepted(comics[k])
    ensures comics[k].num in FoundIds(rows + InsertedRows(comics, accepted))
  {
    var inserted := InsertedRows(comics, accepted);
    var all := rows + inserted;
    InsertedRowsMembers(comics, accepted);
    assert RowOf(comics[k]) in inserted;
    var j :| 0 <= j < |inserted| && inserted[j] == RowOf(comics[k]);
    ParseDecimal(comics[k].num);
    assert RowHasId(all[|rows| + j], comics[k].num);
    FoundIdsMembers(all);
  }

  lemma {:induction false} InsertedRowsMembers(comics: seq<XkcdComic>, accepted: XkcdComic -> bool)
    ensures forall r ::
      (r in InsertedRows(comics, accepted)
       <==> exists k :: 0 <= k < |comics| && accepted(comics[k]) && r == RowOf(comics[k]))
  {
    if comics != [] {
      var prefix := comics[..|comics| - 1];
      InsertedRowsMembers(prefix, accepted);
      forall r ensures r in InsertedRows(comics, accepted)
        <==> exists k :: 0 <= k < |comics| && accepted(comics[k]) && r == RowOf(comics[k])
      {
        if exists k :: 0 <= k < |comics| && accepted(comics[k]) && r == RowOf(comics[k]) {
          var k :| 0 <= k < |comics| && accepted(comics[k]) && r == RowOf(comics[k]);
          if k < |prefix| {
            assert prefix[k] == comics[k];
          }
        }
      }
    }
  }

  // ---------------------------------------------------------------------------
  // Filling the gap: `populate_db`

  /** The ceiling used when the newest comic cannot be fetched. */
  const NewestFallback: U32 := 9999

  /** The one archive number that never resolves to a comic. */
  const KnownBadId: U32 := 404

  /** The frontier: the number of the newest comic, or the fallback when fetching it fails. */
  function Frontier(server: Server): U32
  {
    match FetchOutcome(0, server)
    case Fetched(c) => c.num
    case Failed(_) => NewestFallback
  }

  /** The frontier is the number of the comic the first answered request for the newest
      comic returns, and the fallback when all three requests fail. */
  lemma FrontierSpec(server: Server, k: nat)
    ensures (forall j :: 0 <= j < MaxAttempts ==> server(LatestUrl, j).Fault?) ==>
      Frontier(server) == NewestFallback
    ensures (k < MaxAttempts && server(LatestUrl, k).Answer?
             && forall j :: 0 <= j < k ==> server(LatestUrl, j).Fault?) ==>
      Frontier(server) == server(LatestUrl, k).comic.num
  {
    FetchFromSucceeds(0, LatestUrl, server, 0);
  }

  /** An id the scan requests: neither stored already nor the known-bad one. */
  predicate IsCandidate(id: int, found: seq<U32>)
  {
    id !in found && id != KnownBadId
  }

  datatype Halt = Halt(id: U32, error: FetchComicError)

  /** What a scan does: the ids it passes to `fetch_comic` in order, the comics fetched (and
      saved) in order, and where it stopped early, if it did. */
  datatype SyncRun = SyncRun(requested: seq<U32>, fetched: seq<XkcdComic>, halted: Option<Halt>)

  /** The scan over the ids `i..=frontier`, where `fetch` gives the outcome of `fetch_comic`
      for each id. */
  function RunFrom(i: nat, frontier: U32, found: seq<U32>, fetch: U32 -> FetchResult): (run: SyncRun)
    ensures |run.requested| <= if i <= frontier then frontier + 1 - i else 0
    decreases if i <= frontier then frontier + 1 - i else 0
  {
    if i > frontier then SyncRun([], [], None)
    else if !IsCandidate(i, found) then RunFrom(i + 1, frontier, found, fetch)
    else
      match fetch(i)
      case Failed(e) => SyncRun([i], [], Some(Halt(i, e)))
      case Fetched(c) =>
        var rest := RunFrom(i + 1, frontier, found, fetch);
        SyncRun([i] + rest.requested, [c] + rest.fetched, rest.halted)
  }

  /** The scan of one `populate_db` call on a table holding `rows`. */
  function SyncOf(rows: seq<Row>, server: Server): SyncRun
  {
    RunFrom(1, Frontier(server), FoundIds(rows), FetchOutcomes(server))
  }

  /** What a run reports in its closing log lines: a summary when the scan completes, the
      failing id and its error when it stops early. Either way the source returns `Ok(())`. */
  datatype SyncReport =
    | Summary(alreadyStored: nat, fetchedAndSaved: nat)
    | HaltedAt(id: U32, error: FetchComicError)

  /** A run, with `requested` and `fetched` placed in front. */
  function After(requested: seq<U32>, fetched: seq<XkcdComic>, run: SyncRun): SyncRun
  {
    SyncRun(requested + run.requested, fetched + run.fetched, run.halted)
  }

  /** `populate_db`: fetches the frontier, loads the stored numbers, then scans `1..=frontier`
      (`ScanAndSave`). `requested` lists the `fetch_comic` calls of the scan and `saved` the
      `save_comic` calls. */
  method PopulateDb(connection: Connection, server: Server, execute: string -> bool)
    returns (report: SyncReport, ghost requested: seq<U32>, ghost saved: seq<XkcdComic>)
    modifies connection
    ensures requested == SyncOf(old(connection.rows), server).requested
    ensures saved == SyncOf(old(connection.rows), server).fetched
    ensures connection.rows == old(connection.rows) + InsertedRows(saved, AcceptedBy(execute))
    ensures report == match SyncOf(old(connection.rows), server).halted
      case Some(h) => HaltedAt(h.id, h.error)
      case None => Summary(|FoundIds(old(connection.rows))|, |saved|)
  {
    var newest;
    ghost var urls;
    newest, urls := FetchComic(0, server);
    var frontier: U32 := if newest.Fetched? then newest.comic.num else NewestFallback;
    var found := LoadFoundComics(Distinct(NumColumn(connection.rows)));
    assert frontier == Frontier(server);
    assert found == FoundIds(old(connection.rows));
    report, requested, saved := ScanAndSave(connection, frontier, found, server, execute);
  }

  /** The loop of `populate_db`: walks `1..=frontier` in order, skipping stored ids and 404,
      saving each fetched comic at once and returning at the first failed fetch. */
  method ScanAndSave(connection: Connection, frontier: U32, found: seq<U32>, server: Server,
                     execute: string -> bool)
    returns (report: SyncReport, ghost requested: seq<U32>, ghost saved: seq<XkcdComic>)
    modifies connection
    ensures requested == RunFrom(1, frontier, found, FetchOutcomes(server)).requested
    ensures saved == RunFrom(1, frontier, found, FetchOutcomes(server)).fetched
    ensures connection.rows == old(connection.rows) + InsertedRows(saved, AcceptedBy(execute))
    ensures report == match RunFrom(1, frontier, found, FetchOutcomes(server)).halted
      case Some(h) => HaltedAt(h.id, h.error)
      case None => Summary(|found|, |saved|)
  {
    ghost var rows0 := connection.rows;
    ghost var run := RunFrom(1, frontier, found, FetchOutcomes(server));
    var fetchedCount: nat := 0;
    requested, saved := [], [];
    var i: nat := 1;
    assert After([], [], run) == run;
    while i <= frontier
      invariant 1 <= i <= frontier + 1
      invariant fetchedCount == |saved|
      invariant run == After(requested, saved, RunFrom(i, frontier, found, FetchOutcomes(server)))
      invariant connection.rows == rows0 + InsertedRows(saved, AcceptedBy(execute))
      decreases frontier + 1 - i
    {
      if i in found {
        SkipStep(i, frontier, found, FetchOutcomes(server));
        i := i + 1;
        continue;
      }
      if i == KnownBadId {
        SkipStep(i, frontier, found, FetchOutcomes(server));
        i := i + 1;
        continue;
      }
      var id: U32 := i;
      var outcome;
      ghost var urls;
      outcome, urls := FetchComic(id, server);
      match outcome {
        case Failed(error) =>
          FailedStep(requested, saved, id, frontier, found, FetchOutcomes(server), error);
          requested := requested + [id];
          return HaltedAt(id, error), requested, saved;
        case Fetched(comic) =>
          FetchedStep(requested, saved, id, frontier, found, FetchOutcomes(server), comic);
          SaveComic(connection, comic, execute);
          SavedStep(rows0, saved, comic, execute);
          requested := requested + [id];
          saved := saved + [comic];
          fetchedCount := fetchedCount + 1;
      }
      i := i + 1;
    }
    report := Summary(|found|, fetchedCount);
  }

  /** A skipped id adds nothing to the run. */
  lemma SkipStep(i: nat, frontier: U32, found: seq<U32>, fetch: U32 -> FetchResult)
    requires i <= frontier && !IsCandidate(i, found)
    ensures RunFrom(i, frontier, found, fetch) == RunFrom(i + 1, frontier, found, fetch)
  {
  }

  /** A fetched candidate is requested and fetched before the rest of the run. */
  lemma FetchedStep(requested: seq<U32>, fetched: seq<XkcdComic>, id: U32, frontier: U32, found: seq<U32>,
                    fetch: U32 -> FetchResult, c: XkcdComic)
    requires id <= frontier && IsCandidate(id, found) && fetch(id) == Fetched(c)
    ensures After(requested, fetched, RunFrom(id, frontier, found, fetch))
         == After(requested + [id], fetched + [c], RunFrom(id + 1, frontier, found, fetch))
  {
    var rest := RunFrom(id + 1, frontier, found, fetch);
    assert requested + ([id] + rest.requested) == (requested + [id]) + rest.requested;
    assert fetched + ([c] + rest.fetched) == (fetched + [c]) + rest.fetched;
  }

  /** A failed candidate ends the run. */
  lemma FailedStep(requested: seq<U32>, fetched: seq<XkcdComic>, id: U32, frontier: U32, found: seq<U32>,
                   fetch: U32 -> FetchResult, e: FetchComicError)
    requires id <= frontier && IsCandidate(id, found) && fetch(id) == Failed(e)
    ensures After(requested, fetched, RunFrom(id, frontier, found, fetch))
         == SyncRun(requested + [id], fetched, Some(Halt(id, e)))
  {
    assert fetched + [] == fetched;
  }
  lemma SavedStep(rows0: seq<Row>, saved: seq<XkcdComic>, comic: XkcdComic, execute: string -> bool)
    ensures rows0 + InsertedRows(saved, AcceptedBy(execute))
              + (if execute(InsertStatement(comic)) then [RowOf(comic)] else [])
         == rows0 + InsertedRows(saved + [comic], AcceptedBy(execute))
  {
    InsertedRowsStep(saved, comic, AcceptedBy(execute));
    assert AcceptedBy(execute)(comic) == execute(InsertStatement(comic));
  }
}
