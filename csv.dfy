/**
 * The CSV codec: `parseCSV`, a character-by-character scanner, and `toCSV`,
 * its quoting and escaping counterpart. It follows section 2 of RFC 4180
 * (quoted fields, `""` inside quotes for a literal quote) with the source's own
 * deviations: every field is trimmed, a bare CR ends a row as LF and CRLF do,
 * rows whose fields are all empty are dropped, and `toCSV` does not quote a field
 * for a CR alone.
 */
module Csv {
  import opened JsString

  // ---------------------------------------------------------------- parsing

  /** The scanner's state: the field `f`, the row `r`, the rows so far and the quote flag `q`. */
  datatype Scanner = Scanner(field: string, row: seq<string>, rows: seq<seq<string>>, quoted: bool)

  const Start := Scanner("", [], [], false)

  /**
   * Closes the current row: the (trimmed) field joins the row and the row joins
   * the rows, but only when a field is being built or a field was collected.
   */
  function EndRow(st: Scanner): Scanner {
    if |st.field| > 0 || |st.row| > 0 then
      Scanner("", [], st.rows + [st.row + [Trim(st.field)]], st.quoted)
    else st
  }

  /**
   * One turn of the scanning loop at the rest `s` of the text: how many
   * characters it consumes (two for `""` inside quotes and for CRLF outside
   * them) and the state after it.
   */
  function Step(s: string, st: Scanner): (r: (nat, Scanner))
    requires s != []
    ensures 1 <= r.0 <= |s|
  {
    if s[0] == '"' then
      if st.quoted && |s| > 1 && s[1] == '"' then (2, st.(field := st.field + "\""))
      else (1, st.(quoted := !st.quoted))
    else if s[0] == ',' && !st.quoted then
      (1, st.(field := "", row := st.row + [Trim(st.field)]))
    else if (s[0] == '\n' || s[0] == '\r') && !st.quoted then
      (if s[0] == '\r' && |s| > 1 && s[1] == '\n' then 2 else 1, EndRow(st))
    else (1, st.(field := st.field + [s[0]]))
  }

  /** The scanning loop run over the rest `s` of the text. */
  function Scan(s: string, st: Scanner): Scanner
    decreases |s|
  {
    if s == [] then st
    else
      var p := Step(s, st);
      Scan(s[p.0..], p.1)
  }

  /** A row with no non-empty field (the empty row included). */
  predicate IsBlank(row: seq<string>) {
    forall i :: 0 <= i < |row| ==> row[i] == ""
  }

  /** `rows.filter(row => row.length && row.some(x => x !== ""))`. */
  function KeepNonBlank(rows: seq<seq<string>>): (r: seq<seq<string>>)
    ensures |r| <= |rows|
    ensures forall row :: row in r <==> row in rows && !IsBlank(row)
    ensures (forall row :: row in rows ==> !IsBlank(row)) ==> r == rows
  {
    if rows == [] then []
    else (if IsBlank(rows[0]) then [] else [rows[0]]) + KeepNonBlank(rows[1..])
  }

  /**
   * The filter keeps the rows in their order: a single row is kept exactly when
   * it is not blank, and filtering a concatenation filters each part in turn.
   */
  lemma {:induction false} KeepNonBlankInOrder(a: seq<seq<string>>, b: seq<seq<string>>)
    ensures forall row :: KeepNonBlank([row]) == if IsBlank(row) then [] else [row]
    ensures KeepNonBlank(a + b) == KeepNonBlank(a) + KeepNonBlank(b)
    decreases |a|
  {
    if a == [] {
      assert a + b == b;
    } else {
      assert (a + b)[0] == a[0];
      assert (a + b)[1..] == a[1..] + b;
      KeepNonBlankInOrder(a[1..], b);
      ConcatAssoc(if IsBlank(a[0]) then [] else [a[0]], KeepNonBlank(a[1..]), KeepNonBlank(b));
    }
  }

  /** What `parseCSV(text)` returns. */
  function Parse(text: string): seq<seq<string>> {
    KeepNonBlank(EndRow(Scan(text, Start)).rows)
  }

  predicate AllTrimmed(row: seq<string>) {
    forall i :: 0 <= i < |row| ==> IsTrimmed(row[i])
  }

  /** Everything the scanner has collected so far is trimmed. */
  predicate Tidy(st: Scanner) {
    AllTrimmed(st.row) && forall k :: 0 <= k < |st.rows| ==> AllTrimmed(st.rows[k])
  }

  lemma AppendTrimmed(row: seq<string>, x: string)
    requires AllTrimmed(row)
    ensures AllTrimmed(row + [Trim(x)])
  {
    var r := row + [Trim(x)];
    TrimSpec(x);
    forall i | 0 <= i < |r|
      ensures IsTrimmed(r[i])
    {
      if i < |row| {
        assert r[i] == row[i];
      }
    }
  }

  lemma EndRowTidy(st: Scanner)
    requires Tidy(st)
    ensures Tidy(EndRow(st))
  {
    if |st.field| > 0 || |st.row| > 0 {
      AppendTrimmed(st.row, st.field);
      var row := st.row + [Trim(st.field)];
      var rows := st.rows + [row];
      forall k | 0 <= k < |rows|
        ensures AllTrimmed(rows[k])
      {
        if k < |st.rows| {
          assert rows[k] == st.rows[k];
        }
      }
    }
  }

  lemma StepTidy(s: string, st: Scanner)
    requires s != [] && Tidy(st)
    ensures Tidy(Step(s, st).1)
  {
    if s[0] == ',' && !st.quoted {
      AppendTrimmed(st.row, st.field);
    } else if (s[0] == '\n' || s[0] == '\r') && !st.quoted {
      EndRowTidy(st);
    }
  }

  lemma {:induction false} ScanTidy(s: string, st: Scanner)
    requires Tidy(st)
    ensures Tidy(Scan(s, st))
    decreases |s|
  {
    if s != [] {
      var p := Step(s, st);
      StepTidy(s, st);
      ScanTidy(s[p.0..], p.1);
    }
  }

  /** Every field `parseCSV` returns is trimmed, and no row is empty or all-empty. */
  lemma ParseShape(text: string)
    ensures forall row :: row in Parse(text) ==> |row| > 0 && !IsBlank(row) && AllTrimmed(row)
  {
    ScanTidy(text, Start);
    EndRowTidy(Scan(text, Start));
  }

  /** The `while` loop of `parseCSV`, index `i`, field `f`, row `r`, flag `q`. */
  method ParseCSV(text: string) returns (result: seq<seq<string>>)
    ensures result == Parse(text)
    ensures forall row :: row in result ==> |row| > 0 && !IsBlank(row) && AllTrimmed(row)
  {
    var rows: seq<seq<string>> := [];
    var i, f, r, q := 0, "", [], false;
    ghost var goal := Scan(text, Start);
    while i < |text|
      invariant 0 <= i <= |text|
      invariant Scan(text[i..], Scanner(f, r, rows, q)) == goal
      decreases |text| - i
    {
      var c := text[i];
      ghost var i0, s, st := i, text[i..], Scanner(f, r, rows, q);
      ghost var p := Step(s, st);
      assert s[0] == c && (|s| > 1 ==> s[1] == text[i + 1]);
      if c == '"' {
        if q && i + 1 < |text| && text[i + 1] == '"' {
          f := f + "\"";
          i := i + 1;
          assert p == (2, Scanner(f, r, rows, q));
        } else {
          q := !q;
          assert p == (1, Scanner(f, r, rows, q));
        }
      } else if c == ',' && !q {
        r := r + [Trim(f)];
        f := "";
        assert p == (1, Scanner(f, r, rows, q));
      } else if (c == '\n' || c == '\r') && !q {
        if |f| > 0 || |r| > 0 {
          r := r + [Trim(f)];
          rows := rows + [r];
          f := "";
          r := [];
        }
        assert p.1 == Scanner(f, r, rows, q);
        if c == '\r' && i + 1 < |text| && text[i + 1] == '\n' {
          i := i + 1;
          assert p.0 == 2;
        } else {
          assert p.0 == 1;
        }
      } else {
        f := f + [c];
        assert p == (1, Scanner(f, r, rows, q));
      }
      i := i + 1;
      assert i == i0 + p.0;
      assert text[i..] == s[p.0..];
    }
    if |f| > 0 || |r| > 0 {
      r := r + [Trim(f)];
      rows := rows + [r];
    }
    result := KeepNonBlank(rows);
    ParseShape(text);
  }

  // ---------------------------------------------------------------- scanning steps

  lemma ConcatAssoc<X>(a: seq<X>, b: seq<X>, c: seq<X>)
    ensures a + b + c == a + (b + c)
  {
  }

  lemma OpenQuoteStep(t: string, st: Scanner)
    requires !st.quoted
    ensures Scan("\"" + t, st) == Scan(t, st.(quoted := true))
  {
    assert ("\"" + t)[1..] == t;
  }

  lemma EscapedQuoteStep(t: string, st: Scanner)
    requires st.quoted
    ensures Scan("\"\"" + t, st) == Scan(t, st.(field := st.field + "\""))
  {
    assert ("\"\"" + t)[2..] == t;
  }

  lemma ClosingQuoteStep(t: string, st: Scanner)
    requires st.quoted && (t == [] || t[0] != '"')
    ensures Scan("\"" + t, st) == Scan(t, st.(quoted := false))
  {
    assert ("\"" + t)[1..] == t;
  }

  lemma QuotedCharStep(c: char, t: string, st: Scanner)
    requires st.quoted && c != '"'
    ensures Scan([c] + t, st) == Scan(t, st.(field := st.field + [c]))
  {
    assert ([c] + t)[1..] == t;
  }

  lemma PlainCharStep(c: char, t: string, st: Scanner)
    requires !st.quoted && c != '"' && c != ',' && c != '\n' && c != '\r'
    ensures Scan([c] + t, st) == Scan(t, st.(field := st.field + [c]))
  {
    assert ([c] + t)[1..] == t;
  }

  lemma CommaStep(t: string, st: Scanner)
    requires !st.quoted
    ensures Scan("," + t, st) == Scan(t, st.(field := "", row := st.row + [Trim(st.field)]))
  {
    assert ("," + t)[1..] == t;
  }

  lemma LineFeedStep(t: string, st: Scanner)
    requires !st.quoted
    ensures Scan("\n" + t, st) == Scan(t, EndRow(st))
  {
    assert ("\n" + t)[1..] == t;
  }

  // ---------------------------------------------------------------- quoting

  /** Inside quotes, a run with no `"` (commas, LF and CR included) goes into the field and ends nothing. */
  lemma {:induction false} QuotedRunKept(v: string, rest: string, st: Scanner)
    requires st.quoted
    requires forall i :: 0 <= i < |v| ==> v[i] != '"'
    ensures Scan(v + rest, st) == Scan(rest, st.(field := st.field + v))
    decreases |v|
  {
    if v == [] {
      assert v + rest == rest && st.field + v == st.field;
    } else {
      var c, w := v[0], v[1..];
      var st1 := st.(field := st.field + [c]);
      assert v == [c] + w;
      ConcatAssoc([c], w, rest);
      ConcatAssoc(st.field, [c], w);
      calc {
        Scan(v + rest, st);
        Scan([c] + (w + rest), st);
        { QuotedCharStep(c, w + rest, st); }
        Scan(w + rest, st1);
        { QuotedRunKept(w, rest, st1); }
        Scan(rest, st1.(field := st1.field + w));
        Scan(rest, st.(field := st.field + v));
      }
    }
  }

  /** `s.replace(/"/g, '""')`: every quote doubled. */
  function Escape(s: string): string {
    if s == [] then []
    else (if s[0] == '"' then "\"\"" else [s[0]]) + Escape(s[1..])
  }

  /**
   * Inside quotes, an escaped value followed by the closing quote yields the
   * value itself: each `""` gives one `"`, and the closing quote (not followed by
   * another quote) closes the field.
   */
  lemma {:induction false} QuotedFieldRead(v: string, rest: string, st: Scanner)
    requires st.quoted
    requires rest == [] || rest[0] != '"'
    ensures Scan(Escape(v) + "\"" + rest, st) == Scan(rest, st.(field := st.field + v, quoted := false))
    decreases |v|
  {
    if v == [] {
      assert Escape(v) + "\"" + rest == "\"" + rest;
      assert st.field + v == st.field;
      ClosingQuoteStep(rest, st);
    } else {
      var c, w := v[0], v[1..];
      var e := Escape(w);
      var tail := e + "\"" + rest;
      var st1 := st.(field := st.field + [c]);
      assert v == [c] + w;
      ConcatAssoc(st.field, [c], w);
      assert st1.(field := st1.field + w, quoted := false) == st.(field := st.field + v, quoted := false);
      var q := if c == '"' then "\"\"" else [c];
      assert Escape(v) == q + e;
      ConcatAssoc(q, e, "\"");
      ConcatAssoc(q, e + "\"", rest);
      assert Escape(v) + "\"" + rest == q + tail;
      if c == '"' {
        EscapedQuoteStep(tail, st);
      } else {
        QuotedCharStep(c, tail, st);
      }
      assert Scan(Escape(v) + "\"" + rest, st) == Scan(tail, st1);
      QuotedFieldRead(w, rest, st1);
    }
  }

  lemma CrLfStep(t: string, st: Scanner)
    requires !st.quoted
    ensures Scan("\r\n" + t, st) == Scan(t, EndRow(st))
  {
    assert ("\r\n" + t)[2..] == t;
  }

  lemma CrStep(t: string, st: Scanner)
    requires !st.quoted && (t == [] || t[0] != '\n')
    ensures Scan("\r" + t, st) == Scan(t, EndRow(st))
  {
    assert ("\r" + t)[1..] == t;
  }

  /** Outside quotes CRLF ends a row as LF does: it counts as one line break. */
  lemma CrLfAsLineFeed(rest: string, st: Scanner)
    requires !st.quoted
    ensures Scan("\r\n" + rest, st) == Scan("\n" + rest, st)
  {
    CrLfStep(rest, st);
    LineFeedStep(rest, st);
  }

  /** Outside quotes a bare CR ends a row as LF does. */
  lemma CrAsLineFeed(rest: string, st: Scanner)
    requires !st.quoted
    ensures Scan("\r" + rest, st) == Scan("\n" + rest, st)
  {
    var e := EndRow(st);
    if rest != [] && rest[0] == '\n' {
      var t := rest[1..];
      assert rest == "\n" + t;
      assert "\r" + rest == "\r\n" + t;
      calc {
        Scan("\r" + rest, st);
        { CrLfStep(t, st); }
        Scan(t, e);
        { assert EndRow(e) == e; }
        Scan(t, EndRow(e));
        { LineFeedStep(t, e); }
        Scan(rest, e);
        { LineFeedStep(rest, st); }
        Scan("\n" + rest, st);
      }
    } else {
      CrStep(rest, st);
      LineFeedStep(rest, st);
    }
  }

  // ---------------------------------------------------------------- formatting

  /** A cell handed to `toCSV`: null / undefined, a string or a number. */
  datatype Value = Null | Str(s: string) | Num(n: int)

  /** `v == null ? "" : String(v)`. */
  function Stringify(v: Value): string {
    match v
    case Null => ""
    case Str(s) => s
    case Num(n) => IntToString(n)
  }

  /** The test `/[",\n]/.test(s)`. */
  predicate NeedsQuotes(s: string) {
    exists i :: 0 <= i < |s| && (s[i] == '"' || s[i] == ',' || s[i] == '\n')
  }

  /** One field of `toCSV`: quoted, with quotes doubled, exactly when it needs quotes. */
  function EncodeField(s: string): (r: string)
    ensures r == s <==> !NeedsQuotes(s)
  {
    if NeedsQuotes(s) then
      assert |Escape(s)| >= |s| by { EscapeLength(s); }
      "\"" + Escape(s) + "\""
    else s
  }

  lemma {:induction false} EscapeLength(s: string)
    ensures |Escape(s)| >= |s|
  {
    if s != [] {
      EscapeLength(s[1..]);
    }
  }

  /** `parts.join(sep)`. */
  function Join(sep: string, parts: seq<string>): string {
    if |parts| == 0 then ""
    else if |parts| == 1 then parts[0]
    else parts[0] + sep + Join(sep, parts[1..])
  }

  function EncodeRow(row: seq<string>): string {
    if |row| == 0 then ""
    else if |row| == 1 then EncodeField(row[0])
    else EncodeField(row[0]) + "," + EncodeRow(row[1..])
  }

  /** The text `toCSV` builds from rows whose cells are already strings. */
  function Serialize(rows: seq<seq<string>>): string {
    if |rows| == 0 then ""
    else if |rows| == 1 then EncodeRow(rows[0])
    else EncodeRow(rows[0]) + "\n" + Serialize(rows[1..])
  }

  function RenderRow(row: seq<Value>): (r: seq<string>)
    ensures |r| == |row| && forall j :: 0 <= j < |row| ==> r[j] == Stringify(row[j])
  {
    seq(|row|, j requires 0 <= j < |row| => Stringify(row[j]))
  }

  /** Every cell of `rows` as its string form. */
  function Render(rows: seq<seq<Value>>): (r: seq<seq<string>>)
    ensures |r| == |rows| && forall i :: 0 <= i < |rows| ==> r[i] == RenderRow(rows[i])
  {
    seq(|rows|, i requires 0 <= i < |rows| => RenderRow(rows[i]))
  }

  /** `toCSV(rows)`: fields joined by `,`, rows by LF. */
  function ToCSV(rows: seq<seq<Value>>): string {
    Serialize(Render(rows))
  }

  /** The inner join of `toCSV`: a written row is its encoded fields joined by commas. */
  lemma {:induction false} EncodeRowIsJoin(row: seq<string>)
    ensures EncodeRow(row) == Join(",", seq(|row|, j requires 0 <= j < |row| => EncodeField(row[j])))
    decreases |row|
  {
    var parts := seq(|row|, j requires 0 <= j < |row| => EncodeField(row[j]));
    if |row| > 1 {
      EncodeRowIsJoin(row[1..]);
      assert parts[1..] == seq(|row[1..]|, j requires 0 <= j < |row[1..]| => EncodeField(row[1..][j]));
    }
  }

  /** The outer join of `toCSV`: the text is the written rows joined by LF. */
  lemma {:induction false} SerializeIsJoin(rows: seq<seq<string>>)
    ensures Serialize(rows) == Join("\n", seq(|rows|, i requires 0 <= i < |rows| => EncodeRow(rows[i])))
    decreases |rows|
  {
    var lines := seq(|rows|, i requires 0 <= i < |rows| => EncodeRow(rows[i]));
    if |rows| > 1 {
      SerializeIsJoin(rows[1..]);
      assert lines[1..] == seq(|rows[1..]|, i requires 0 <= i < |rows[1..]| => EncodeRow(rows[1..][i]));
    }
  }

  // ---------------------------------------------------------------- round trip

  predicate NoCr(s: string) {
    forall i :: 0 <= i < |s| ==> s[i] != '\r'
  }

  /** A field that survives `toCSV` then `parseCSV` unchanged. */
  predicate Clean(x: string) {
    IsTrimmed(x) && NoCr(x)
  }

  /** A row that survives `toCSV` then `parseCSV` unchanged. */
  predicate Encodable(row: seq<string>) {
    |row| > 0 && !IsBlank(row) && forall i :: 0 <= i < |row| ==> Clean(row[i])
  }

  /** Outside quotes, a run with no quote, comma or line break goes into the field. */
  lemma {:induction false} PlainRunKept(v: string, rest: string, st: Scanner)
    requires !st.quoted
    requires forall i :: 0 <= i < |v| ==> v[i] != '"' && v[i] != ',' && v[i] != '\n' && v[i] != '\r'
    ensures Scan(v + rest, st) == Scan(rest, st.(field := st.field + v))
    decreases |v|
  {
    if v == [] {
      assert v + rest == rest && st.field + v == st.field;
    } else {
      var c, w := v[0], v[1..];
      var st1 := st.(field := st.field + [c]);
      assert v == [c] + w;
      ConcatAssoc([c], w, rest);
      ConcatAssoc(st.field, [c], w);
      calc {
        Scan(v + rest, st);
        Scan([c] + (w + rest), st);
        { PlainCharStep(c, w + rest, st); }
        Scan(w + rest, st1);
        { PlainRunKept(w, rest, st1); }
        Scan(rest, st1.(field := st1.field + w));
        Scan(rest, st.(field := st.field + v));
      }
    }
  }

  /** Outside quotes, an encoded field (with no CR) is read back as the field itself. */
  lemma FieldRoundTrip(v: string, rest: string, st: Scanner)
    requires !st.quoted && NoCr(v)
    requires rest == [] || rest[0] != '"'
    ensures Scan(EncodeField(v) + rest, st) == Scan(rest, st.(field := st.field + v))
  {
    if NeedsQuotes(v) {
      var e := Escape(v);
      var tail := e + "\"" + rest;
      ConcatAssoc("\"", e, "\"");
      ConcatAssoc("\"", e + "\"", rest);
      assert EncodeField(v) + rest == "\"" + tail;
      OpenQuoteStep(tail, st);
      QuotedFieldRead(v, rest, st.(quoted := true));
    } else {
      PlainRunKept(v, rest, st);
    }
  }

  /** The first field of a row of two or more and its comma move into the row. */
  lemma RowHeadRead(row: seq<string>, rest: string, st: Scanner)
    requires |row| > 1 && !st.quoted && st.field == "" && Clean(row[0])
    ensures Scan(EncodeRow(row) + rest, st) == Scan(EncodeRow(row[1..]) + rest, st.(row := st.row + [row[0]]))
  {
    var first := row[0];
    var st1 := st.(field := first);
    TrimSpec(first);
    assert st1.(field := "", row := st1.row + [Trim(st1.field)]) == st.(row := st.row + [first]);
    var e, r := EncodeField(first), EncodeRow(row[1..]);
    var body := r + rest;
    assert EncodeRow(row) == e + "," + r;
    ConcatAssoc(e + ",", r, rest);
    ConcatAssoc(e, ",", body);
    assert st.field + first == first;
    assert ("," + body)[0] == ',';
    FieldRoundTrip(first, "," + body, st);
    CommaStep(body, st1);
  }

  /** Moving the first field into the row commutes with leaving the last one in the field buffer. */
  lemma RowShift(row: seq<string>, st: Scanner)
    requires |row| > 1
    ensures var more, st2 := row[1..], st.(row := st.row + [row[0]]);
      st2.(field := more[|more| - 1], row := st2.row + more[..|more| - 1])
      == st.(field := row[|row| - 1], row := st.row + row[..|row| - 1])
  {
    var more := row[1..];
    assert more[|more| - 1] == row[|row| - 1];
    assert more[..|more| - 1] == row[1..|row| - 1];
    assert [row[0]] + row[1..|row| - 1] == row[..|row| - 1];
    ConcatAssoc(st.row, [row[0]], row[1..|row| - 1]);
  }

  lemma CleanTail(row: seq<string>)
    requires |row| > 0 && forall i :: 0 <= i < |row| ==> Clean(row[i])
    ensures forall i :: 0 <= i < |row| - 1 ==> Clean(row[1..][i])
  {
    forall i | 0 <= i < |row| - 1
      ensures Clean(row[1..][i])
    {
      assert row[1..][i] == row[i + 1];
    }
  }

  /** A one-field row is read into the field buffer. */
  lemma LastFieldRead(row: seq<string>, rest: string, st: Scanner)
    requires |row| == 1 && !st.quoted && st.field == "" && Clean(row[0])
    requires rest == [] || rest[0] == '\n'
    ensures Scan(EncodeRow(row) + rest, st) == Scan(rest, st.(field := row[0], row := st.row + row[..0]))
  {
    assert st.row + row[..0] == st.row && st.field + row[0] == row[0];
    FieldRoundTrip(row[0], rest, st);
  }

  /** Scanning an encoded row up to a line break or the end collects all its fields but the last, which stays in the field buffer. */
  lemma {:induction false} RowRoundTrip(row: seq<string>, rest: string, st: Scanner)
    requires |row| > 0 && !st.quoted && st.field == ""
    requires forall i :: 0 <= i < |row| ==> Clean(row[i])
    requires rest == [] || rest[0] == '\n'
    ensures Scan(EncodeRow(row) + rest, st) == Scan(rest, st.(field := row[|row| - 1], row := st.row + row[..|row| - 1]))
    decreases |row|
  {
    if |row| == 1 {
      LastFieldRead(row, rest, st);
    } else {
      assert Clean(row[0]);
      var more, st2 := row[1..], st.(row := st.row + [row[0]]);
      CleanTail(row);
      calc {
        Scan(EncodeRow(row) + rest, st);
        { RowHeadRead(row, rest, st); }
        Scan(EncodeRow(more) + rest, st2);
        { RowRoundTrip(more, rest, st2); }
        Scan(rest, st2.(field := more[|more| - 1], row := st2.row + more[..|more| - 1]));
        { RowShift(row, st); }
        Scan(rest, st.(field := row[|row| - 1], row := st.row + row[..|row| - 1]));
      }
    }
  }

  /** Closing the row left by `RowRoundTrip` appends exactly the encoded row. */
  lemma EndRowAfterRow(row: seq<string>, acc: seq<seq<string>>)
    requires Encodable(row)
    ensures EndRow(Scanner(row[|row| - 1], row[..|row| - 1], acc, false)) == Scanner("", [], acc + [row], false)
  {
    var last, init := row[|row| - 1], row[..|row| - 1];
    assert Clean(last);
    TrimSpec(last);
    assert |last| > 0 || |init| > 0 by {
      if |row| == 1 {
        assert !IsBlank(row);
        assert row == [last];
      }
    }
    assert init + [last] == row;
  }

  lemma EncodableTail(rows: seq<seq<string>>)
    requires |rows| > 0 && forall i :: 0 <= i < |rows| ==> Encodable(rows[i])
    ensures forall i :: 0 <= i < |rows| - 1 ==> Encodable(rows[1..][i])
  {
    forall i | 0 <= i < |rows| - 1
      ensures Encodable(rows[1..][i])
    {
      assert rows[1..][i] == rows[i + 1];
    }
  }

  /** Reading the first of two or more encoded rows and its line feed appends that row. */
  lemma RowsHeadRead(rows: seq<seq<string>>, acc: seq<seq<string>>)
    requires |rows| > 1 && Encodable(rows[0])
    ensures Scan(Serialize(rows), Scanner("", [], acc, false)) == Scan(Serialize(rows[1..]), Scanner("", [], acc + [rows[0]], false))
  {
    var row := rows[0];
    var st := Scanner("", [], acc, false);
    var left := Scanner(row[|row| - 1], row[..|row| - 1], acc, false);
    assert st.(field := row[|row| - 1], row := st.row + row[..|row| - 1]) == left;
    EndRowAfterRow(row, acc);
    var tl := Serialize(rows[1..]);
    assert Serialize(rows) == EncodeRow(row) + "\n" + tl;
    ConcatAssoc(EncodeRow(row), "\n", tl);
    RowRoundTrip(row, "\n" + tl, st);
    LineFeedStep(tl, left);
  }

  /** Reading the only remaining encoded row and closing it appends that row. */
  lemma LastRowRead(rows: seq<seq<string>>, acc: seq<seq<string>>)
    requires |rows| == 1 && Encodable(rows[0])
    ensures EndRow(Scan(Serialize(rows), Scanner("", [], acc, false))).rows == acc + rows
  {
    var row := rows[0];
    var st := Scanner("", [], acc, false);
    assert st.(field := row[|row| - 1], row := st.row + row[..|row| - 1]) == Scanner(row[|row| - 1], row[..|row| - 1], acc, false);
    EndRowAfterRow(row, acc);
    assert rows == [row];
    assert Serialize(rows) == EncodeRow(row) + "";
    RowRoundTrip(row, "", st);
  }

  lemma {:induction false} RowsRoundTrip(rows: seq<seq<string>>, acc: seq<seq<string>>)
    requires forall i :: 0 <= i < |rows| ==> Encodable(rows[i])
    ensures EndRow(Scan(Serialize(rows), Scanner("", [], acc, false))).rows == acc + rows
    decreases |rows|
  {
    if |rows| == 0 {
      assert acc + rows == acc;
    } else if |rows| == 1 {
      LastRowRead(rows, acc);
    } else {
      var acc1 := acc + [rows[0]];
      assert Encodable(rows[0]);
      EncodableTail(rows);
      calc {
        EndRow(Scan(Serialize(rows), Scanner("", [], acc, false))).rows;
        { RowsHeadRead(rows, acc); }
        EndRow(Scan(Serialize(rows[1..]), Scanner("", [], acc1, false))).rows;
        { RowsRoundTrip(rows[1..], acc1); }
        acc1 + rows[1..];
        { assert rows == [rows[0]] + rows[1..]; ConcatAssoc(acc, [rows[0]], rows[1..]); }
        acc + rows;
      }
    }
  }

  /** `parseCSV(Serialize(rows)) == rows` for trimmed, CR-free fields and rows with a non-empty field. */
  lemma SerializeRoundTrip(rows: seq<seq<string>>)
    requires forall i :: 0 <= i < |rows| ==> Encodable(rows[i])
    ensures Parse(Serialize(rows)) == rows
  {
    RowsRoundTrip(rows, []);
    assert [] + rows == rows;
  }

  /** `parseCSV(toCSV(rows))` gives back every cell's string form, under the same conditions. */
  lemma ToCsvRoundTrip(rows: seq<seq<Value>>)
    requires forall i :: 0 <= i < |rows| ==> Encodable(RenderRow(rows[i]))
    ensures Parse(ToCSV(rows)) == Render(rows)
  {
    SerializeRoundTrip(Render(rows));
  }

  /** Writing the rows `parseCSV` returned and parsing them again gives the same rows, when no field holds a CR. */
  lemma ParseSerializeParse(text: string)
    requires forall row :: row in Parse(text) ==> forall i :: 0 <= i < |row| ==> NoCr(row[i])
    ensures Parse(Serialize(Parse(text))) == Parse(text)
  {
    var p := Parse(text);
    ParseShape(text);
    forall i | 0 <= i < |p|
      ensures Encodable(p[i])
    {
      assert p[i] in p;
    }
    SerializeRoundTrip(p);
  }

  /** A quoted non-empty trimmed field without quotes reads as one row of that one field, whatever else it holds. */
  lemma QuotedFieldParse(v: string)
    requires v != [] && IsTrimmed(v)
    requires forall i :: 0 <= i < |v| ==> v[i] != '"'
    ensures Parse("\"" + v + "\"") == [[v]]
  {
    var open := Start.(quoted := true);
    assert "\"" + v + "\"" == "\"" + (v + "\"");
    OpenQuoteStep(v + "\"", Start);
    QuotedRunKept(v, "\"", open);
    assert open.(field := open.field + v) == Scanner(v, [], [], true);
    ClosingQuoteStep([], Scanner(v, [], [], true));
    assert "\"" + [] == "\"";
    TrimSpec(v);
    assert [v][0] == v;
    assert Trim(v) == v;
    var none: seq<string> := [];
    var noRows: seq<seq<string>> := [];
    assert none + [Trim(v)] == [v];
    assert noRows + [[v]] == [[v]];
  }

  /** Outside quotes, scanning a plain character, a CR and another plain character closes a row after the first. */
  lemma CrSplitScan(a: char, b: char)
    requires !IsSpace(a) && a != '"' && a != ','
    requires b != '"' && b != ',' && b != '\n' && b != '\r'
    ensures Scan([a] + "\r" + [b], Start) == Scanner([b], [], [[[a]]], false)
  {
    assert [a] + "\r" + [b] == [a] + ("\r" + [b]);
    PlainCharStep(a, "\r" + [b], Start);
    assert Start.(field := Start.field + [a]) == Scanner([a], [], [], false);
    CrStep([b], Scanner([a], [], [], false));
    assert IsTrimmed([a]);
    TrimSpec([a]);
    var none: seq<string> := [];
    var noRows: seq<seq<string>> := [];
    assert Trim([a]) == [a];
    assert none + [Trim([a])] == [[a]];
    assert noRows + [[[a]]] == [[[a]]];
    var st := Scanner("", [], [[[a]]], false);
    assert EndRow(Scanner([a], [], [], false)) == st;
    assert [b] == [b] + [];
    PlainCharStep(b, [], st);
  }

  /** Two plain characters separated by a CR, outside quotes, read as two rows. */
  lemma CrSplitParse(a: char, b: char)
    requires !IsSpace(a) && a != '"' && a != ','
    requires !IsSpace(b) && b != '"' && b != ','
    ensures Parse([a] + "\r" + [b]) == [[[a]], [[b]]]
  {
    CrSplitScan(a, b);
    assert IsTrimmed([b]);
    TrimSpec([b]);
    var none: seq<string> := [];
    assert none + [Trim([b])] == [[b]];
    var rows := [[[a]]] + [[[b]]];
    assert EndRow(Scanner([b], [], [[[a]]], false)).rows == rows;
    assert rows[0][0] == [a] && rows[1][0] == [b];
    assert rows[1..] == [[[b]]];
  }

  /**
   * A CR inside a quoted field is kept by `parseCSV`, but `toCSV` does not quote
   * a field for a CR alone, so reading the written text back splits the row there.
   */
  lemma QuotedCrLost()
    ensures Parse("\"a\rb\"") == [["a\rb"]]
    ensures Serialize([["a\rb"]]) == "a\rb"
    ensures Parse(Serialize(Parse("\"a\rb\""))) == [["a"], ["b"]]
  {
    var f := "a\rb";
    assert "\"a\rb\"" == "\"" + f + "\"";
    assert IsTrimmed(f);
    QuotedFieldParse(f);
    assert !NeedsQuotes(f);
    assert f == ['a'] + "\r" + ['b'];
    CrSplitParse('a', 'b');
  }
}
