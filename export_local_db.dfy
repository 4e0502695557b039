/**
  The data export script: each value of a row becomes an SQL literal, each
  table becomes a TRUNCATE followed by one INSERT per row, and the tables are
  exported parents first.

  What the script writes is modelled as the sequence of strings passed to
  `write`, in order.
 */
module ExportLocalDb {
  import opened Common
  import PyStr
  import PhoneMask

  /** A value as the database driver hands it over. `Int` and `Bool` are
      Python `int` and `bool` (a `bool` is also an `int`); `Float` carries the
      text `str()` gives it; `Temporal` the text `isoformat()` gives it;
      `Other` (such as a `Decimal`) the text `str()` gives it. */
  datatype SqlValue = NullValue | Str(s: string) | Int(i: int) | Float(repr: string) | Bool(b: bool)
                    | Temporal(iso: string) | Other(text: string)

  // ---------------------------------------------------------------- str() of an int

  function DigitChar(d: int): char
    requires 0 <= d < 10
  {
    ('0' as int + d) as char
  }

  /** The decimal digits of `n`, most significant first. */
  function NatStr(n: nat): string
    decreases n
  {
    if n < 10 then [DigitChar(n)] else NatStr(n / 10) + [DigitChar(n % 10)]
  }

  /** `str(i)` for an integer. */
  function IntStr(i: int): string {
    if i < 0 then "-" + NatStr(-i) else NatStr(i)
  }

  /** Reading decimal digits back. */
  function DigitsValue(s: string): int {
    if s == [] then 0 else DigitsValue(s[..|s| - 1]) * 10 + (s[|s| - 1] as int - '0' as int)
  }

  function ParseInt(s: string): int {
    if |s| > 0 && s[0] == '-' then -DigitsValue(s[1..]) else DigitsValue(s)
  }

  lemma {:induction false} NatStrReads(n: nat)
    ensures |NatStr(n)| >= 1 && PhoneMask.AllDigits(NatStr(n)) && DigitsValue(NatStr(n)) == n
    decreases n
  {
    if n >= 10 {
      NatStrReads(n / 10);
      var a := NatStr(n / 10);
      assert (a + [DigitChar(n % 10)])[..|a|] == a;
    }
  }

  /** `str(i)` is an optional minus sign and the digits, and reads back as `i`. */
  lemma IntStrReads(i: int)
    ensures ParseInt(IntStr(i)) == i
    ensures i >= 0 ==> PhoneMask.AllDigits(IntStr(i)) && IntStr(i) != []
    ensures i < 0 ==> IntStr(i)[0] == '-' && PhoneMask.AllDigits(IntStr(i)[1..]) && |IntStr(i)| >= 2
  {
    if i < 0 {
      NatStrReads(-i);
      assert IntStr(i)[1..] == NatStr(-i);
    } else {
      NatStrReads(i);
      assert PhoneMask.IsDigit(NatStr(i)[0]);
    }
  }

  // ---------------------------------------------------------------- string literals

  /** `val.replace("'", "''").replace("\\", "\\\\")`. */
  function EscapeText(s: string): string {
    PyStr.ReplaceChar(PyStr.ReplaceChar(s, '\'', "''"), '\\', "\\\\")
  }

  /** What one character becomes. */
  function EscapeChar(c: char): string {
    if c == '\'' then "''" else if c == '\\' then "\\\\" else [c]
  }

  /** The two replacements work character by character. */
  lemma EscapeCons(c: char, t: string)
    ensures EscapeText([c] + t) == EscapeChar(c) + EscapeText(t)
  {
    var s := [c] + t;
    assert s[0] == c && s[1..] == t;
    var first := if c == '\'' then "''" else [c];
    assert PyStr.ReplaceChar(s, '\'', "''") == first + PyStr.ReplaceChar(t, '\'', "''");
    PyStr.ReplaceCharConcat(first, PyStr.ReplaceChar(t, '\'', "''"), '\\', "\\\\");
    if c == '\'' {
      assert PyStr.ReplaceChar("''", '\\', "\\\\") == "''" by {
        assert "''" == ['\''] + ['\''];
        PyStr.ReplaceCharConcat(['\''], ['\''], '\\', "\\\\");
        assert ['\''][1..] == [];
      }
    } else {
      assert first[0] == c && first[1..] == [];
    }
  }

  /** A reader of the quoted body the encoder writes: a doubled quote is one
      quote, a doubled backslash is one backslash, and a single quote ends the
      body; it answers the text and what follows. */
  function ReadBody(t: string): Option<(string, string)>
    decreases |t|
  {
    if t == [] then None
    else if t[0] == '\'' then
      if |t| >= 2 && t[1] == '\'' then Prepend('\'', ReadBody(t[2..])) else Some(([], t[1..]))
    else if t[0] == '\\' then
      if |t| >= 2 && t[1] == '\\' then Prepend('\\', ReadBody(t[2..])) else None
    else Prepend(t[0], ReadBody(t[1..]))
  }

  function Prepend(c: char, o: Option<(string, string)>): Option<(string, string)> {
    if o.None? then None else Some(([c] + o.value.0, o.value.1))
  }

  /** A quoted literal at the start of `t`. */
  function ReadQuoted(t: string): Option<(string, string)> {
    if |t| > 0 && t[0] == '\'' then ReadBody(t[1..]) else None
  }

  lemma {:induction false} ReadBodyEscaped(s: string, rest: string)
    requires rest == [] || rest[0] != '\''
    ensures ReadBody(EscapeText(s) + "'" + rest) == Some((s, rest))
    decreases |s|
  {
    if s == [] {
      assert PyStr.ReplaceChar(s, '\'', "''") == [];
      assert EscapeText(s) + "'" + rest == ['\''] + rest;
    } else {
      var c, t := s[0], s[1..];
      assert s == [c] + t;
      EscapeCons(c, t);
      ReadBodyEscaped(t, rest);
      var tail := EscapeText(t) + "'" + rest;
      var whole := EscapeText(s) + "'" + rest;
      assert whole == EscapeChar(c) + tail;
      if c == '\'' || c == '\\' {
        assert whole[0] == c && whole[1] == c && whole[2..] == tail;
      } else {
        assert whole[0] == c && whole[1..] == tail;
      }
    }
  }

  // ---------------------------------------------------------------- values

  /** `isinstance(val, (int, float))`: true of a `bool` as well. */
  predicate IsNumber(v: SqlValue) {
    v.Int? || v.Float? || v.Bool?
  }

  /** `str(val)` of a number; `str(True)` is "True". */
  function NumberText(v: SqlValue): string
    requires IsNumber(v)
  {
    match v
    case Int(i) => IntStr(i)
    case Float(r) => r
    case Bool(b) => if b then "True" else "False"
  }

  /** The literal of one value, with the branches in the order the script
      tests them. */
  function Literal(v: SqlValue): string {
    if v.NullValue? then "NULL"
    else if v.Str? then "'" + EscapeText(v.s) + "'"
    else if IsNumber(v) then NumberText(v)
    else if v.Bool? then (if v == Bool(true) then "TRUE" else "FALSE")
    else if v.Temporal? then "'" + v.iso + "'"
    else "'" + PyStr.ReplaceChar(v.text, '\'', "''") + "'"
  }

  /** A string literal reads back as the string, whatever follows it in the
      statement (other than a quote): no quote inside it ends it early. */
  lemma StrLiteralReads(s: string, rest: string)
    requires rest == [] || rest[0] != '\''
    ensures ReadQuoted(Literal(Str(s)) + rest) == Some((s, rest))
  {
    ReadBodyEscaped(s, rest);
    var body := EscapeText(s) + "'" + rest;
    assert Literal(Str(s)) + rest == ['\''] + body;
  }

  /** NULL, integers and booleans: a bool takes the integer branch, so it is
      written `True` or `False` and never `TRUE` or `FALSE`. */
  lemma ScalarLiterals(i: int, b: bool)
    ensures Literal(NullValue) == "NULL"
    ensures ParseInt(Literal(Int(i))) == i
    ensures Literal(Bool(b)) == (if b then "True" else "False")
    ensures Literal(Bool(b)) != "TRUE" && Literal(Bool(b)) != "FALSE"
  {
    IntStrReads(i);
  }

  lemma {:induction false} ReplaceCharAbsent(s: string, c: char, r: string)
    requires c !in s
    ensures PyStr.ReplaceChar(s, c, r) == s
  {
    if s != [] {
      ReplaceCharAbsent(s[1..], c, r);
      assert s == [s[0]] + s[1..];
    }
  }

  lemma {:induction false} ReplaceCharKeepsAbsent(s: string, c: char, r: string, d: char)
    requires d !in s && d !in r
    ensures d !in PyStr.ReplaceChar(s, c, r)
  {
    if s != [] {
      assert d !in s[1..];
      ReplaceCharKeepsAbsent(s[1..], c, r, d);
    }
  }

  /** Any other value only has its quotes doubled; for text without a
      backslash (such as that of a `Decimal`) that is the string encoding, so
      it reads back the same way. */
  lemma OtherLiteralReads(text: string, rest: string)
    requires '\\' !in text
    requires rest == [] || rest[0] != '\''
    ensures Literal(Other(text)) == Literal(Str(text))
    ensures ReadQuoted(Literal(Other(text)) + rest) == Some((text, rest))
  {
    ReplaceCharKeepsAbsent(text, '\'', "''", '\\');
    ReplaceCharAbsent(PyStr.ReplaceChar(text, '\'', "''"), '\\', "\\\\");
    StrLiteralReads(text, rest);
  }

  // ---------------------------------------------------------------- tables

  /** The literals of a row, one per value, in column order. */
  function Literals(row: seq<SqlValue>): (r: seq<string>)
    ensures |r| == |row| && forall i :: 0 <= i < |row| ==> r[i] == Literal(row[i])
  {
    seq(|row|, i requires 0 <= i < |row| => Literal(row[i]))
  }

  function InsertLine(table: string, columns: seq<string>, row: seq<SqlValue>): string {
    "INSERT INTO " + table + " (" + PyStr.Join(columns, ", ") + ") VALUES (" + PyStr.Join(Literals(row), ", ") + ");\n"
  }

  function EmptyComment(table: string): string {
    "-- Таблица " + table + " пуста\n\n"
  }

  function Truncate(table: string): string {
    "TRUNCATE TABLE " + table + " CASCADE;\n\n"
  }

  /** What `export_table_data` writes for a table with these columns and rows. */
  function TableExport(table: string, columns: seq<string>, rows: seq<seq<SqlValue>>): seq<string> {
    if rows == [] then [EmptyComment(table)]
    else
      ["-- Данные таблицы " + table + "\n", Truncate(table)] +
      seq(|rows|, i requires 0 <= i < |rows| => InsertLine(table, columns, rows[i])) + ["\n"]
  }

  /** An empty table gets only its comment. Otherwise exactly one TRUNCATE
      is written, before the rows, then one INSERT per row in row order, with
      the same column list and one literal per value. */
  lemma TableExportShape(table: string, columns: seq<string>, rows: seq<seq<SqlValue>>)
    ensures rows == [] ==> TableExport(table, columns, rows) == [EmptyComment(table)]
    ensures var out := TableExport(table, columns, rows);
      forall k :: 0 <= k < |out| ==> (PyStr.StartsWith(out[k], "TRUNCATE") <==> rows != [] && k == 1)
    ensures rows != [] ==>
      var out := TableExport(table, columns, rows);
      |out| == |rows| + 3 && out[1] == Truncate(table) &&
      forall i :: 0 <= i < |rows| ==> out[i + 2] == InsertLine(table, columns, rows[i])
  {
    var out := TableExport(table, columns, rows);
    forall k | 0 <= k < |out| ensures PyStr.StartsWith(out[k], "TRUNCATE") <==> rows != [] && k == 1 {
      if rows == [] {
        assert out[k][0] == '-';
      } else if k == 0 {
        assert out[k][0] == '-';
      } else if k == 1 {
        assert out[k][..8] == "TRUNCATE";
      } else if k < |rows| + 2 {
        assert out[k] == InsertLine(table, columns, rows[k - 2]);
        assert out[k][1] == 'N';
      } else {
        assert out[k] == "\n";
      }
    }
  }

  /** The inner loop: one literal per value of the row. */
  method RowValues(row: seq<SqlValue>) returns (values: seq<string>)
    ensures values == Literals(row)
  {
    values := [];
    var i := 0;
    while i < |row|
      invariant 0 <= i <= |row| && |values| == i
      invariant forall j :: 0 <= j < i ==> values[j] == Literal(row[j])
    {
      values := values + [Literal(row[i])];
      i := i + 1;
    }
  }

  /** `export_table_data`, with the rows already fetched in `ORDER BY 1` order
      and the column names in ordinal order. */
  method ExportTableData(table: string, columns: seq<string>, rows: seq<seq<SqlValue>>) returns (out: seq<string>)
    ensures out == TableExport(table, columns, rows)
  {
    if rows == [] {
      return [EmptyComment(table)];
    }
    out := ["-- Данные таблицы " + table + "\n", Truncate(table)];
    var columnsText := PyStr.Join(columns, ", ");
    var k := 0;
    while k < |rows|
      invariant 0 <= k <= |rows| && |out| == k + 2
      invariant out[..2] == ["-- Данные таблицы " + table + "\n", Truncate(table)]
      invariant forall j :: 0 <= j < k ==> out[j + 2] == InsertLine(table, columns, rows[j])
    {
      var values := RowValues(rows[k]);
      var valuesText := PyStr.Join(values, ", ");
      out := out + ["INSERT INTO " + table + " (" + columnsText + ") VALUES (" + valuesText + ");\n"];
      k := k + 1;
    }
    out := out + ["\n"];
  }

  // ---------------------------------------------------------------- table order

  const TablesOrder: seq<string> := ["categories", "stores", "warehouses", "products", "employees", "shifts",
    "operations", "operation_items", "store_product_stock", "warehouse_product_stock", "notifications"]

  /** The tables whose ids a table's rows hold (`category_id`, `store_id`,
      `warehouse_id`, `employee_id`, `shift_id`, `operation_id`, `product_id`),
      leaving out the reference of a return to its own table. */
  function Parents(table: string): set<string> {
    if table == "products" then {"categories"}
    else if table == "employees" then {"stores"}
    else if table == "shifts" then {"employees", "stores"}
    else if table == "operations" then {"shifts", "employees", "stores"}
    else if table == "operation_items" then {"operations", "products"}
    else if table == "store_product_stock" then {"stores", "products"}
    else if table == "warehouse_product_stock" then {"warehouses", "products"}
    else if table == "notifications" then {"products", "stores", "warehouses"}
    else {}
  }

  /** The position of a table in the export order (-1 for any other name). */
  function Rank(table: string): int {
    if table == "categories" then 0
    else if table == "stores" then 1
    else if table == "warehouses" then 2
    else if table == "products" then 3
    else if table == "employees" then 4
    else if table == "shifts" then 5
    else if table == "operations" then 6
    else if table == "operation_items" then 7
    else if table == "store_product_stock" then 8
    else if table == "warehouse_product_stock" then 9
    else if table == "notifications" then 10
    else -1
  }

  /** Every table is exported once, and after every table it refers to, so a
      script replayed in order never inserts a row before its parent rows. */
  lemma TablesOrderParentsFirst()
    ensures forall j :: 0 <= j < |TablesOrder| ==> Rank(TablesOrder[j]) == j
    ensures forall t, p :: p in Parents(t) ==> 0 <= Rank(p) < Rank(t)
  {
  }
}
