/** `TreasuryBillScraper._format_python_value` and `_values_clause`: the
    SQL literals of the `VALUES` list the upsert statement is built around,
    and a reader for that list, so that each literal, each row group and the
    whole clause can be shown to read back as what they were made from. */
module SqlLiterals {
  import opened Wrappers
  import opened Text

  /** The Python values the formatter is given, as far as they are modelled:
      `None`, `int`, `date` (by its year, month and day) and `str`. */
  datatype SqlValue =
    | Null
    | Int(i: int)
    | Date(year: int, month: int, day: int)
    | Str(s: string)

  /** What a `datetime.date` object can hold. */
  predicate ValidDate(v: SqlValue) {
    v.Date? ==> 1 <= v.year <= 9999 && 1 <= v.month <= 12 && 1 <= v.day <= 31
  }

  /** Python's `str(i)` for an integer: an optional minus sign, then the
      decimal digits with no leading zero. */
  function IntToString(i: int): (s: string)
    ensures |s| >= 1 && (s[0] == '-' <==> i < 0)
  {
    if i < 0 then "-" + NatToString(-i) else NatToString(i)
  }

  /** Reads back a decimal integer literal in the form `str` writes it: an
      optional minus sign and digits without a leading zero, `0` alone
      standing for zero (so neither `007` nor `-0` is read). */
  function ParseInt(s: string): Option<int> {
    if |s| >= 2 && s[0] == '-' && AllDigits(s[1..]) && s[1] != '0' then
      Some(-(DigitsValue(s[1..]) as int))
    else if |s| >= 1 && AllDigits(s) && (|s| == 1 || s[0] != '0') then
      Some(DigitsValue(s))
    else None
  }

  lemma IntToStringRoundTrip(i: int)
    ensures ParseInt(IntToString(i)) == Some(i)
  {
    var t := IntToString(i);
    if i < 0 {
      var d := NatToString(-i);
      NatToStringRoundTrip(-i);
      assert t == "-" + d && t[1..] == d;
      assert t[0] == '-' && |t| >= 2 && AllDigits(t[1..]) && t[1] != '0';
      assert DigitsValue(t[1..]) == -i;
    } else {
      NatToStringRoundTrip(i);
      assert t[0] != '-';
    }
  }

  /** `date.isoformat()`: `YYYY-MM-DD`, each field zero-padded to its
      width, so each reads back from a fixed position. */
  function IsoDate(year: nat, month: nat, day: nat): (iso: string)
    requires 1 <= year <= 9999 && 1 <= month <= 12 && 1 <= day <= 31
    ensures |iso| == 10 && iso[4] == '-' && iso[7] == '-'
    ensures AllDigits(iso[..4]) && DigitsValue(iso[..4]) == year
    ensures AllDigits(iso[5..7]) && DigitsValue(iso[5..7]) == month
    ensures AllDigits(iso[8..10]) && DigitsValue(iso[8..10]) == day
  {
    assert Pow10(2) == 100 && Pow10(4) == 10000;
    NatToStringLength(year, 4);
    NatToStringLength(month, 2);
    NatToStringLength(day, 2);
    var y, m, d := ZeroPad(year, 4), ZeroPad(month, 2), ZeroPad(day, 2);
    var iso := y + ("-" + (m + ("-" + d)));
    assert iso[..4] == y;
    assert iso[5..7] == m;
    assert iso[8..10] == d;
    iso
  }

  /** `f"DATE '{value.isoformat()}'"`: the four-digit year, two-digit month
      and two-digit day can be read back from fixed positions. */
  function DateLiteral(year: nat, month: nat, day: nat): (lit: string)
    requires 1 <= year <= 9999 && 1 <= month <= 12 && 1 <= day <= 31
    ensures |lit| == 17 && lit[..6] == "DATE '" && lit[16] == '\''
    ensures lit[10] == '-' && lit[13] == '-'
    ensures AllDigits(lit[6..10]) && DigitsValue(lit[6..10]) == year
    ensures AllDigits(lit[11..13]) && DigitsValue(lit[11..13]) == month
    ensures AllDigits(lit[14..16]) && DigitsValue(lit[14..16]) == day
  {
    var iso := IsoDate(year, month, day);
    var lit := "DATE '" + (iso + "'");
    assert lit[6..10] == iso[..4];
    assert lit[11..13] == iso[5..7];
    assert lit[14..16] == iso[8..10];
    lit
  }

  /** `s.replace("'", "''")`: every quote doubled, so a string without
      quotes is unchanged. */
  function DoubleQuotes(s: string): (r: string)
    ensures |r| >= |s|
    ensures '\'' !in s ==> r == s
  {
    if s == [] then []
    else (if s[0] == '\'' then "''" else [s[0]]) + DoubleQuotes(s[1..])
  }

  /** Doubling the quotes adds no character that was not already there. */
  lemma {:induction false} DoubleQuotesAddsNothing(s: string)
    ensures forall c :: c in DoubleQuotes(s) ==> c in s
  {
    if s != [] {
      DoubleQuotesAddsNothing(s[1..]);
      assert forall c :: c in s[1..] ==> c in s;
    }
  }

  /** Reads the body of a quoted SQL string up to its closing quote: a
      doubled quote stands for one quote, a lone quote closes the literal.
      Gives the value and what follows the closing quote. */
  function ScanQuoted(t: string): (p: Option<(string, string)>)
    ensures p.Some? ==> |p.value.1| < |t|
  {
    if t == [] then None
    else if t[0] == '\'' then
      if |t| >= 2 && t[1] == '\'' then
        match ScanQuoted(t[2..])
        case Some((v, rest)) => Some(("'" + v, rest))
        case None => None
      else Some(([], t[1..]))
    else
      match ScanQuoted(t[1..])
      case Some((v, rest)) => Some(([t[0]] + v, rest))
      case None => None
  }

  /** Doubling the quotes of `s` and closing the literal is read back as
      `s`, whatever follows the closing quote, unless that is a quote. */
  lemma {:induction false} ScanDoubledQuotes(s: string, rest: string)
    requires rest == [] || rest[0] != '\''
    ensures ScanQuoted(DoubleQuotes(s) + "'" + rest) == Some((s, rest))
  {
    var t := DoubleQuotes(s) + "'" + rest;
    if s == [] {
      assert t == "'" + rest;
    } else {
      ScanDoubledQuotes(s[1..], rest);
      var h := if s[0] == '\'' then "''" else [s[0]];
      var u := DoubleQuotes(s[1..]) + "'" + rest;
      assert DoubleQuotes(s) == h + DoubleQuotes(s[1..]);
      assert t == h + u;
      assert t[|h|..] == u;
      assert s == [s[0]] + s[1..];
    }
  }

  /** The value of a complete quoted SQL string literal `'...'`. */
  function ParseQuoted(lit: string): Option<string> {
    if lit != [] && lit[0] == '\'' then
      var p := ScanQuoted(lit[1..]);
      if p.Some? && p.value.1 == [] then Some(p.value.0) else None
    else None
  }

  /** `f"'{s.replace(\"'\", \"''\")}'"`: a quoted literal whose value is `s`. */
  function QuotedLiteral(s: string): (lit: string)
    ensures ParseQuoted(lit) == Some(s)
  {
    var lit := "'" + DoubleQuotes(s) + "'";
    ScanDoubledQuotes(s, []);
    assert lit[1..] == DoubleQuotes(s) + "'" + [];
    lit
  }

  /** `_format_python_value`: `NULL`, the decimal integer, a `DATE` literal,
      or a quoted string with quotes doubled. Each literal reads back as the
      value it was made from. */
  function FormatValue(v: SqlValue): (lit: string)
    requires ValidDate(v)
    ensures v.Null? ==> lit == "NULL"
    ensures v.Int? ==> ParseInt(lit) == Some(v.i)
    ensures v.Str? ==> ParseQuoted(lit) == Some(v.s)
    ensures v.Date? ==> lit == DateLiteral(v.year, v.month, v.day)
  {
    match v
    case Null => "NULL"
    case Int(i) =>
      IntToStringRoundTrip(i);
      IntToString(i)
    case Date(y, m, d) => DateLiteral(y, m, d)
    case Str(s) => QuotedLiteral(s)
  }

  // ---------------------------------------------------------------------
  // Reading literals back, left to right
  // ---------------------------------------------------------------------

  /** The number of leading decimal digits. */
  function DigitRun(s: string): (k: nat)
    ensures k <= |s| && AllDigits(s[..k])
    ensures k < |s| ==> !IsDigit(s[k])
  {
    if s != [] && IsDigit(s[0]) then
      var k := 1 + DigitRun(s[1..]);
      assert s[..k] == [s[0]] + s[1..][..k - 1];
      k
    else 0
  }

  lemma {:induction false} DigitRunOfDigits(t: string, rest: string)
    requires AllDigits(t) && (rest == [] || !IsDigit(rest[0]))
    ensures DigitRun(t + rest) == |t|
  {
    if t != [] {
      assert (t + rest)[1..] == t[1..] + rest;
      DigitRunOfDigits(t[1..], rest);
    }
  }

  /** The length of an integer token: an optional minus sign and digits. */
  function NumberLength(s: string): (k: nat)
    ensures k <= |s|
  {
    if s != [] && s[0] == '-' then 1 + DigitRun(s[1..]) else DigitRun(s)
  }

  /** A `DATE 'YYYY-MM-DD'` literal at the start of `s`, read by position. */
  function ParseDate(s: string): (p: Option<(SqlValue, string)>)
    ensures p.Some? ==> |p.value.1| < |s|
  {
    if && |s| >= 17 && s[..6] == "DATE '" && s[10] == '-' && s[13] == '-' && s[16] == '\''
       && AllDigits(s[6..10]) && AllDigits(s[11..13]) && AllDigits(s[14..16])
    then Some((Date(DigitsValue(s[6..10]), DigitsValue(s[11..13]), DigitsValue(s[14..16])), s[17..]))
    else None
  }

  /** One literal at the start of `s`, told apart by its first character,
      and what follows it. */
  function ParseField(s: string): (p: Option<(SqlValue, string)>)
    ensures p.Some? ==> |p.value.1| < |s|
  {
    if s == [] then None
    else if s[0] == 'N' then
      if |s| >= 4 && s[..4] == "NULL" then Some((Null, s[4..])) else None
    else if s[0] == 'D' then ParseDate(s)
    else if s[0] == '\'' then
      match ScanQuoted(s[1..])
      case Some((v, rest)) => Some((Str(v), rest))
      case None => None
    else
      var k := NumberLength(s);
      match ParseInt(s[..k])
      case Some(i) => Some((Int(i), s[k..]))
      case None => None
  }

  /** A field's literal is ended by the `,` or `)` of its row group. */
  predicate EndsField(rest: string) {
    rest != [] && (rest[0] == ',' || rest[0] == ')')
  }

  lemma IntReadBack(i: int, rest: string)
    requires EndsField(rest)
    ensures ParseField(IntToString(i) + rest) == Some((Int(i), rest))
  {
    var lit := IntToString(i);
    var s := lit + rest;
    IntToStringRoundTrip(i);
    assert s[0] == lit[0];
    if i < 0 {
      assert lit[1..] == NatToString(-i);
      assert s[1..] == lit[1..] + rest;
      DigitRunOfDigits(lit[1..], rest);
      assert NumberLength(s) == |lit|;
    } else {
      assert lit == NatToString(i);
      DigitRunOfDigits(lit, rest);
      assert NumberLength(s) == |lit|;
    }
    assert s[..|lit|] == lit && s[|lit|..] == rest;
  }

  lemma DateReadBack(year: nat, month: nat, day: nat, rest: string)
    requires 1 <= year <= 9999 && 1 <= month <= 12 && 1 <= day <= 31
    ensures ParseField(DateLiteral(year, month, day) + rest) == Some((Date(year, month, day), rest))
  {
    var lit := DateLiteral(year, month, day);
    var s := lit + rest;
    assert s[..17] == lit;
    assert s[..6] == lit[..6];
    assert s[6..10] == lit[6..10] && s[11..13] == lit[11..13] && s[14..16] == lit[14..16];
    assert s[17..] == rest;
  }

  lemma StrReadBack(t: string, rest: string)
    requires EndsField(rest)
    ensures ParseField(QuotedLiteral(t) + rest) == Some((Str(t), rest))
  {
    var s := QuotedLiteral(t) + rest;
    assert s[1..] == DoubleQuotes(t) + "'" + rest;
    ScanDoubledQuotes(t, rest);
  }

  /** Every literal, followed by the `,` or `)` that ends it in a row group,
      reads back as its value. */
  lemma FieldReadBack(v: SqlValue, rest: string)
    requires ValidDate(v) && EndsField(rest)
    ensures ParseField(FormatValue(v) + rest) == Some((v, rest))
  {
    match v
    case Null =>
      var s := FormatValue(v) + rest;
      assert s[..4] == "NULL" && s[4..] == rest;
    case Int(i) => IntReadBack(i, rest);
    case Date(y, m, d) => DateReadBack(y, m, d, rest);
    case Str(t) => StrReadBack(t, rest);
  }

  /** A literal followed by the character `sep`, and what follows that. */
  function FieldThen(s: string, sep: char): (p: Option<(SqlValue, string)>)
    ensures p.Some? ==> |p.value.1| < |s|
  {
    match ParseField(s)
    case None => None
    case Some((v, rest)) => if rest != [] && rest[0] == sep then Some((v, rest[1..])) else None
  }

  /** A parenthesised group of four literals at the start of `s`, and what
      follows it. */
  function ParseRow(s: string): (p: Option<(SqlRow, string)>)
    ensures p.Some? ==> |p.value.1| < |s|
  {
    if s == [] || s[0] != '(' then None
    else match FieldThen(s[1..], ',')
      case None => None
      case Some((date, r1)) =>
        match FieldThen(r1, ',')
        case None => None
        case Some((maturity, r2)) =>
          match FieldThen(r2, ',')
          case None => None
          case Some((yieldPct, r3)) =>
            match FieldThen(r3, ')')
            case None => None
            case Some((scraped, r4)) => Some((SqlRow(date, maturity, yieldPct, scraped), r4))
  }

  /** One row of the upsert: (date, maturity, yield_pct, scrape_timestamp). */
  datatype SqlRow = SqlRow(date: SqlValue, maturity: SqlValue, yieldPct: SqlValue, scraped: SqlValue)

  predicate ValidRow(row: SqlRow) {
    ValidDate(row.date) && ValidDate(row.maturity) && ValidDate(row.yieldPct) && ValidDate(row.scraped)
  }

  /** A literal, then its separator, reads back as the value and what
      follows the separator. */
  lemma FieldThenReadBack(v: SqlValue, sep: char, tail: string)
    requires ValidDate(v) && (sep == ',' || sep == ')')
    ensures FieldThen(FormatValue(v) + ([sep] + tail), sep) == Some((v, tail))
  {
    var rest := [sep] + tail;
    FieldReadBack(v, rest);
    assert rest[1..] == tail;
  }

  lemma Assoc(x: string, y: string, z: string)
    ensures (x + y) + z == x + (y + z)
  {
  }

  /** The four field literals, then `)`, read back as the row. */
  lemma GroupReadBack(row: SqlRow, rest: string)
    requires ValidRow(row)
    ensures ParseRow("(" + FormatValue(row.date) + "," + FormatValue(row.maturity) + "," +
                     FormatValue(row.yieldPct) + "," + FormatValue(row.scraped) + ")" + rest)
            == Some((row, rest))
  {
    var a, b, c, d := FormatValue(row.date), FormatValue(row.maturity), FormatValue(row.yieldPct), FormatValue(row.scraped);
    var r3 := d + (")" + rest);
    var r2 := c + ("," + r3);
    var r1 := b + ("," + r2);
    var t := a + ("," + r1);
    var p1 := "(" + a;
    var p2 := p1 + ",";
    var p3 := p2 + b;
    var p4 := p3 + ",";
    var p5 := p4 + c;
    var p6 := p5 + ",";
    var p7 := p6 + d;
    Assoc(p7, ")", rest);
    Assoc(p6, d, ")" + rest);
    Assoc(p5, ",", r3);
    Assoc(p4, c, "," + r3);
    Assoc(p3, ",", r2);
    Assoc(p2, b, "," + r2);
    Assoc(p1, ",", r1);
    Assoc("(", a, "," + r1);
    var s := "(" + t;
    assert s[1..] == t;
    FieldThenReadBack(row.date, ',', r1);
    FieldThenReadBack(row.maturity, ',', r2);
    FieldThenReadBack(row.yieldPct, ',', r3);
    FieldThenReadBack(row.scraped, ')', rest);
  }

  /** The parenthesised group for one row: its four literals in the order
      date, maturity, yield_pct, scrape timestamp, separated by commas.
      Whatever follows it, the group reads back as the row. */
  function RowLiteral(row: SqlRow): (g: string)
    requires ValidRow(row)
    ensures forall rest :: ParseRow(g + rest) == Some((row, rest))
  {
    var g := "(" + FormatValue(row.date) + "," + FormatValue(row.maturity) + "," +
             FormatValue(row.yieldPct) + "," + FormatValue(row.scraped) + ")";
    assert forall rest :: ParseRow(g + rest) == Some((row, rest)) by {
      forall rest ensures ParseRow(g + rest) == Some((row, rest)) {
        GroupReadBack(row, rest);
      }
    }
    g
  }

  // ---------------------------------------------------------------------
  // The VALUES list
  // ---------------------------------------------------------------------

  /** `sep.join(parts)`. */
  function Join(parts: seq<string>, sep: string): string {
    if parts == [] then ""
    else if |parts| == 1 then parts[0]
    else Join(parts[..|parts| - 1], sep) + sep + parts[|parts| - 1]
  }

  /** Between any two neighbouring parts stands exactly one separator:
      cutting the list anywhere cuts the joined text at a separator. */
  lemma {:induction false} JoinSplit(parts: seq<string>, sep: string, i: nat)
    requires 0 < i < |parts|
    ensures Join(parts, sep) == Join(parts[..i], sep) + sep + Join(parts[i..], sep)
  {
    var n := |parts|;
    var init, tail := parts[..n - 1], parts[i..];
    if i == n - 1 {
      assert init == parts[..i];
      assert tail == [parts[n - 1]];
    } else {
      JoinSplit(init, sep, i);
      assert init[..i] == parts[..i];
      assert init[i..] == tail[..|tail| - 1];
      assert tail[|tail| - 1] == parts[n - 1];
    }
  }

  /** The joined text starts with the first part and ends with the last,
      with one separator at every cut between parts. */
  lemma JoinShape(parts: seq<string>, sep: string)
    requires parts != []
    ensures StartsWith(Join(parts, sep), parts[0])
    ensures EndsWith(Join(parts, sep), parts[|parts| - 1])
    ensures forall i :: 0 < i < |parts| ==>
              Join(parts, sep) == Join(parts[..i], sep) + sep + Join(parts[i..], sep)
  {
    if |parts| > 1 {
      JoinSplit(parts, sep, 1);
      assert parts[..1] == [parts[0]];
      assert Join(parts, sep)[..|parts[0]|] == parts[0];
    }
    forall i | 0 < i < |parts|
      ensures Join(parts, sep) == Join(parts[..i], sep) + sep + Join(parts[i..], sep)
    {
      JoinSplit(parts, sep, i);
    }
  }

  /** Total length of the parts. */
  function JoinedLength(parts: seq<string>): nat {
    if parts == [] then 0 else JoinedLength(parts[..|parts| - 1]) + |parts[|parts| - 1]|
  }

  /** The joined text is as long as the parts plus one separator between
      each pair of neighbours. */
  lemma {:induction false} JoinLength(parts: seq<string>, sep: string)
    requires parts != []
    ensures |Join(parts, sep)| == JoinedLength(parts) + (|parts| - 1) * |sep|
  {
    if |parts| > 1 {
      var n := |parts|;
      JoinLength(parts[..n - 1], sep);
      assert (n - 1) * |sep| == (n - 2) * |sep| + |sep|;
    } else {
      assert parts[..0] == [];
    }
  }

  /** The groups of all rows, in row order. */
  function RowLiterals(rows: seq<SqlRow>): (groups: seq<string>)
    requires forall i :: 0 <= i < |rows| ==> ValidRow(rows[i])
    ensures |groups| == |rows|
  {
    if rows == [] then []
    else RowLiterals(rows[..|rows| - 1]) + [RowLiteral(rows[|rows| - 1])]
  }

  /** Group `i` is the literal of row `i`. */
  lemma {:induction false} RowLiteralsAt(rows: seq<SqlRow>, i: nat)
    requires forall j :: 0 <= j < |rows| ==> ValidRow(rows[j])
    requires i < |rows|
    ensures RowLiterals(rows)[i] == RowLiteral(rows[i])
  {
    if i < |rows| - 1 {
      RowLiteralsAt(rows[..|rows| - 1], i);
    }
  }

  /** Row groups separated by a comma and a newline, to the end of `s`. */
  function ParseRows(s: string): Option<seq<SqlRow>>
    decreases |s|
  {
    match ParseRow(s)
    case None => None
    case Some((row, rest)) =>
      if rest == [] then Some([row])
      else if StartsWith(rest, ",\n") then
        match ParseRows(rest[2..])
        case Some(more) => Some([row] + more)
        case None => None
      else None
  }

  /** A whole `VALUES` list; the empty text is the empty list. */
  function ParseValues(s: string): Option<seq<SqlRow>> {
    if s == [] then Some([]) else ParseRows(s)
  }

  /** A row group read back, then nothing more. */
  lemma ParseRowsOne(s: string, row: SqlRow)
    requires ParseRow(s) == Some((row, []))
    ensures ParseRows(s) == Some([row])
  {
  }

  /** A row group read back, then `,\n` and further groups. */
  lemma ParseRowsCons(s: string, row: SqlRow, tail: string, more: seq<SqlRow>)
    requires ParseRow(s) == Some((row, ",\n" + tail))
    requires ParseRows(tail) == Some(more)
    ensures ParseRows(s) == Some([row] + more)
  {
    assert (",\n" + tail)[2..] == tail;
  }

  /** A non-empty list is its head followed by its tail. */
  lemma HeadTail<T>(xs: seq<T>)
    requires xs != []
    ensures [xs[0]] + xs[1..] == xs
  {
  }

  /** Groups joined by a comma and a newline, each of which reads back as
      its row whatever follows it, read back as the rows. */
  lemma {:induction false} GroupsReadBack(parts: seq<string>, rows: seq<SqlRow>)
    requires rows != [] && |parts| == |rows|
    requires forall k, rest :: 0 <= k < |rows| ==> ParseRow(parts[k] + rest) == Some((rows[k], rest))
    ensures ParseRows(Join(parts, ",\n")) == Some(rows)
  {
    var g := parts[0];
    if |rows| == 1 {
      assert Join(parts, ",\n") == g + [];
      assert ParseRow(g + []) == Some((rows[0], []));
      ParseRowsOne(g + [], rows[0]);
      assert rows == [rows[0]];
    } else {
      var tailText := Join(parts[1..], ",\n");
      JoinSplit(parts, ",\n", 1);
      assert parts[..1] == [g];
      Assoc(g, ",\n", tailText);
      assert ParseRow(g + (",\n" + tailText)) == Some((rows[0], ",\n" + tailText));
      assert forall k, rest :: 0 <= k < |rows| - 1 ==>
               ParseRow(parts[1..][k] + rest) == Some((rows[1..][k], rest)) by {
        forall k, rest | 0 <= k < |rows| - 1
          ensures ParseRow(parts[1..][k] + rest) == Some((rows[1..][k], rest))
        {
          assert parts[1..][k] == parts[k + 1] && rows[1..][k] == rows[k + 1];
        }
      }
      GroupsReadBack(parts[1..], rows[1..]);
      ParseRowsCons(g + (",\n" + tailText), rows[0], tailText, rows[1..]);
      HeadTail(rows);
    }
  }

  /** The joined groups of the rows read back as exactly the rows, and the
      joined text is empty exactly when there are no rows. */
  lemma ValuesReadBack(rows: seq<SqlRow>)
    requires forall j :: 0 <= j < |rows| ==> ValidRow(rows[j])
    ensures ParseValues(Join(RowLiterals(rows), ",\n")) == Some(rows)
    ensures rows == [] <==> Join(RowLiterals(rows), ",\n") == ""
  {
    if rows != [] {
      var parts := RowLiterals(rows);
      forall k, rest | 0 <= k < |rows| ensures ParseRow(parts[k] + rest) == Some((rows[k], rest)) {
        RowLiteralsAt(rows, k);
      }
      GroupsReadBack(parts, rows);
      assert ParseRows("") == None;
    }
  }

  /** `_values_clause`: one group per row, in order, joined by a comma and a
      newline. The clause reads back as exactly the rows, and is empty
      exactly when there are none. */
  method ValuesClause(rows: seq<SqlRow>) returns (clause: string)
    requires forall i :: 0 <= i < |rows| ==> ValidRow(rows[i])
    ensures clause == Join(RowLiterals(rows), ",\n")
    ensures ParseValues(clause) == Some(rows)
    ensures rows == [] <==> clause == ""
  {
    var parts: seq<string> := [];
    for n := 0 to |rows|
      invariant parts == RowLiterals(rows[..n])
    {
      assert rows[..n + 1][..n] == rows[..n];
      parts := parts + [RowLiteral(rows[n])];
    }
    assert rows[..|rows|] == rows;
    clause := Join(parts, ",\n");
    ValuesReadBack(rows);
  }
}
