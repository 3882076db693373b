/** DDL generation: quoted identifiers and the CREATE TABLE statement built around them. The
    text of a column's type and default is a parameter; the names and the key list are not. */
module Ddl {
  import opened Options

  datatype Dialect = MySQL | PostgreSQL

  datatype Column = Column(
    name: string, typeText: string, isNullable: bool, defaultText: Option<string>, isPrimaryKey: bool, isUnique: bool)

  function QuoteChar(d: Dialect): char { if d.PostgreSQL? then '"' else '`' }

  /** strings.ReplaceAll(s, q, qq). */
  function Doubled(s: string, q: char): string {
    if s == "" then "" else (if s[0] == q then [q, q] else [s[0]]) + Doubled(s[1..], q)
  }

  function Quote(name: string, q: char): string { [q] + Doubled(name, q) + [q] }

  function QuoteIdentifier(name: string, d: Dialect): string { Quote(name, QuoteChar(d)) }

  // ---------------------------------------------------------------- reading identifiers back

  datatype Scanned = Scanned(name: string, rest: string)

  /** After the opening quote: a doubled quote stands for one, a single one closes. */
  function ScanBody(s: string, q: char): Option<Scanned> {
    if s == "" then None
    else if s[0] != q then
      var r := ScanBody(s[1..], q);
      if r.None? then None else Some(Scanned([s[0]] + r.value.name, r.value.rest))
    else if |s| > 1 && s[1] == q then
      var r := ScanBody(s[2..], q);
      if r.None? then None else Some(Scanned([q] + r.value.name, r.value.rest))
    else Some(Scanned("", s[1..]))
  }

  function Scan(s: string, q: char): Option<Scanned> {
    if s == "" || s[0] != q then None else ScanBody(s[1..], q)
  }

  predicate StartsWith(s: string, p: string) { p <= s }

  lemma ScanClose(rest: string, q: char)
    requires rest == "" || rest[0] != q
    ensures ScanBody([q] + rest, q) == Some(Scanned("", rest))
  {
    assert ([q] + rest)[1..] == rest;
  }

  function Prepended(c: char, r: Option<Scanned>): Option<Scanned> {
    if r.None? then None else Some(Scanned([c] + r.value.name, r.value.rest))
  }

  lemma ScanPlain(c: char, more: string, q: char)
    requires c != q
    ensures ScanBody([c] + more, q) == Prepended(c, ScanBody(more, q))
  {
    assert ([c] + more)[1..] == more;
  }

  lemma ScanEscaped(more: string, q: char)
    ensures ScanBody([q, q] + more, q) == Prepended(q, ScanBody(more, q))
  {
    assert ([q, q] + more)[2..] == more;
  }

  lemma {:induction false} ScanDoubled(name: string, q: char, rest: string)
    requires rest == "" || rest[0] != q
    ensures ScanBody(Doubled(name, q) + ([q] + rest), q) == Some(Scanned(name, rest))
  {
    hide ScanBody, Doubled;
    var tail := [q] + rest;
    if name == "" {
      DoubledNothing(q, tail);
      ScanClose(rest, q);
    } else {
      var c, more := name[0], Doubled(name[1..], q) + tail;
      ScanDoubled(name[1..], q, rest);
      DoubledFirst(name, q, tail);
      if c == q {
        ScanEscaped(more, q);
      } else {
        ScanPlain(c, more, q);
      }
      HeadTail(name);
    }
  }

  lemma HeadTail(s: string)
    requires s != ""
    ensures [s[0]] + s[1..] == s
  {}

  lemma DoubledNothing(q: char, tail: string)
    ensures Doubled("", q) + tail == tail
  {}

  lemma DoubledFirst(name: string, q: char, tail: string)
    requires name != ""
    ensures Doubled(name, q) + tail == (if name[0] == q then [q, q] else [name[0]]) + (Doubled(name[1..], q) + tail)
  {}

  /** Scanning a printed identifier gives the original name and stops at its closing quote. */
  lemma QuoteRoundTrip(name: string, q: char, rest: string)
    requires rest == "" || rest[0] != q
    ensures Scan(Quote(name, q) + rest, q) == Some(Scanned(name, rest))
  {
    ScanDoubled(name, q, rest);
    hide Doubled, ScanBody;
    var d := Doubled(name, q);
    assert ([q] + d + [q]) + rest == [q] + (d + ([q] + rest));
    assert ([q] + (d + ([q] + rest)))[1..] == d + ([q] + rest);
  }

  /** Different names never print alike. */
  lemma QuoteInjective(a: string, b: string, q: char)
    ensures Quote(a, q) == Quote(b, q) <==> a == b
  {
    QuoteRoundTrip(a, q, "");
    QuoteRoundTrip(b, q, "");
    assert Quote(a, q) + "" == Quote(a, q) && Quote(b, q) + "" == Quote(b, q);
  }

  // ---------------------------------------------------------------- the key list

  function Join(parts: seq<string>, sep: string): string {
    if parts == [] then "" else if |parts| == 1 then parts[0] else parts[0] + sep + Join(parts[1..], sep)
  }

  lemma {:induction false} JoinOneMore(parts: seq<string>, sep: string, p: string)
    ensures Join(parts + [p], sep) == if parts == [] then p else Join(parts, sep) + sep + p
  {
    if |parts| > 1 {
      JoinOneMore(parts[1..], sep, p);
      assert (parts + [p])[1..] == parts[1..] + [p];
      assert parts[0] + sep + (Join(parts[1..], sep) + sep + p) == parts[0] + sep + Join(parts[1..], sep) + sep + p;
    } else if |parts| == 1 {
      assert (parts + [p])[1..] == [p];
    }
  }

  datatype ScannedList = ScannedList(names: seq<string>, rest: string)

  function ScanList(s: string, q: char): Option<ScannedList>
    decreases |s|
  {
    var first := Scan(s, q);
    if first.None? then None
    else
      ScanShorter(s, q);
      if StartsWith(first.value.rest, ", ") then
        var more := ScanList(first.value.rest[2..], q);
        if more.None? then None else Some(ScannedList([first.value.name] + more.value.names, more.value.rest))
      else Some(ScannedList([first.value.name], first.value.rest))
  }

  lemma {:induction false} ScanBodyShorter(s: string, q: char)
    ensures ScanBody(s, q).Some? ==> |ScanBody(s, q).value.rest| < |s|
    decreases |s|
  {
    if s != "" && s[0] != q {
      ScanBodyShorter(s[1..], q);
    } else if |s| > 1 && s[1] == q {
      ScanBodyShorter(s[2..], q);
    }
  }

  lemma ScanShorter(s: string, q: char)
    ensures Scan(s, q).Some? ==> |Scan(s, q).value.rest| < |s|
  {
    if s != "" {
      ScanBodyShorter(s[1..], q);
    }
  }

  function Quoted(names: seq<string>, q: char): (r: seq<string>)
    ensures |r| == |names|
  {
    seq(|names|, i requires 0 <= i < |names| => Quote(names[i], q))
  }

  /** The printed key list parses back to the names in order, whatever they contain. */
  lemma {:induction false} KeyListRoundTrip(names: seq<string>, q: char, rest: string)
    requires names != [] && q != ',' && (rest == "" || (rest[0] != q && rest[0] != ','))
    ensures ScanList(Join(Quoted(names, q), ", ") + rest, q) == Some(ScannedList(names, rest))
  {
    hide Quote, Scan;
    if |names| == 1 {
      QuoteRoundTrip(names[0], q, rest);
      assert Quoted(names, q) == [Quote(names[0], q)] && names == [names[0]];
    } else {
      KeyListRoundTrip(names[1..], q, rest);
      var tail := Join(Quoted(names[1..], q), ", ") + rest;
      JoinedFirst(names, q, rest);
      QuoteRoundTrip(names[0], q, ", " + tail);
      hide Join, Quoted;
      assert (", " + tail)[2..] == tail && StartsWith(", " + tail, ", ");
      assert names == [names[0]] + names[1..];
    }
  }

  lemma JoinedFirst(names: seq<string>, q: char, rest: string)
    requires |names| > 1
    ensures Join(Quoted(names, q), ", ") + rest
         == Quote(names[0], q) + (", " + (Join(Quoted(names[1..], q), ", ") + rest))
  {
    hide Quote;
    assert Quoted(names, q)[1..] == Quoted(names[1..], q);
    var x, y := Quote(names[0], q), Join(Quoted(names[1..], q), ", ");
    assert Join(Quoted(names, q), ", ") == x + ", " + y;
    hide Join, Quoted;
    assert (x + ", " + y) + rest == x + (", " + (y + rest));
  }

  // ---------------------------------------------------------------- the statement

  function ColumnDef(col: Column, d: Dialect): string {
    QuoteIdentifier(col.name, d) + " " + col.typeText
    + (if !col.isNullable then " NOT NULL" else "")
    + (if col.defaultText.Some? && col.defaultText.value != "" then " DEFAULT " + col.defaultText.value else "")
    + (if d.MySQL? && col.isUnique && !col.isPrimaryKey then " UNIQUE" else "")
  }

  function SchemaName(schema: Option<string>): string {
    if schema == None || schema == Some("") then "public" else schema.value
  }

  function TableName(schema: Option<string>, name: string, d: Dialect): string {
    if d.MySQL? then QuoteIdentifier(name, d)
    else QuoteIdentifier(SchemaName(schema), d) + "." + QuoteIdentifier(name, d)
  }

  function Definitions(cols: seq<Column>, d: Dialect): seq<string> {
    if cols == [] then [] else Definitions(cols[..|cols| - 1], d) + ["  " + ColumnDef(cols[|cols| - 1], d)]
  }

  /** The primary-key names in column order. */
  function KeyNames(cols: seq<Column>): seq<string> {
    if cols == [] then []
    else KeyNames(cols[..|cols| - 1]) + if cols[|cols| - 1].isPrimaryKey then [cols[|cols| - 1].name] else []
  }

  lemma QuotedOneMore(names: seq<string>, n: string, q: char)
    ensures Quoted(names + [n], q) == Quoted(names, q) + [Quote(n, q)]
  {}

  /** Everything before the key list, and the list itself when there is a key. */
  function BeforeKeys(schema: Option<string>, name: string, cols: seq<Column>, d: Dialect): string {
    "CREATE TABLE " + TableName(schema, name, d) + " (\n" + Join(Definitions(cols, d), ",\n")
  }

  // What a reader of a column definition finds, clause by clause.

  predicate HasDefault(c: Column) { c.defaultText.Some? && c.defaultText.value != "" }

  /** Reading a definition: the quoted name, the type, NOT NULL exactly for a column that is not
      nullable, DEFAULT and its text exactly for a non-empty one, UNIQUE exactly in MySQL for a
      unique column that is no key, and then `rest`. */
  ghost predicate ReadsColumn(s: string, c: Column, d: Dialect, rest: string) {
    && StartsWith(s, "  ")
    && var named := Scan(s[2..], if d.MySQL? then '`' else '"');
       && named.Some? && named.value.name == c.name && StartsWith(named.value.rest, " " + c.typeText)
       && ReadsClauses(named.value.rest[1 + |c.typeText|..], c, d, rest)
  }

  ghost predicate ReadsClauses(s: string, c: Column, d: Dialect, rest: string) {
    && (StartsWith(s, " NOT NULL") <==> !c.isNullable)
    && var afterNull := if c.isNullable then s else s[9..];
       && (StartsWith(afterNull, " DEFAULT ") <==> HasDefault(c))
       && (HasDefault(c) ==> StartsWith(afterNull[9..], c.defaultText.value))
       && var afterDefault := if HasDefault(c) then afterNull[9 + |c.defaultText.value|..] else afterNull;
          && (StartsWith(afterDefault, " UNIQUE") <==> d.MySQL? && c.isUnique && !c.isPrimaryKey)
          && rest == if d.MySQL? && c.isUnique && !c.isPrimaryKey then afterDefault[7..] else afterDefault
  }

  /** Reading all definitions, separated by a comma and a line break. */
  ghost predicate ReadsColumns(s: string, cols: seq<Column>, d: Dialect, tail: string)
    decreases |cols|
  {
    if cols == [] then s == tail
    else if |cols| == 1 then ReadsColumn(s, cols[0], d, tail)
    else exists more :: ReadsColumn(s, cols[0], d, ",\n" + more) && ReadsColumns(more, cols[1..], d, tail)
  }

  lemma Cut(a: string, b: string)
    ensures StartsWith(a + b, a) && (a + b)[|a|..] == b
  {}

  predicate ClauseEnd(s: string) { s != "" && s[0] != ' ' }

  function UniqueClause(c: Column, d: Dialect): string {
    if d.MySQL? && c.isUnique && !c.isPrimaryKey then " UNIQUE" else ""
  }

  function DefaultClause(c: Column): string { if HasDefault(c) then " DEFAULT " + c.defaultText.value else "" }

  function NullClause(c: Column): string { if c.isNullable then "" else " NOT NULL" }

  lemma UniqueRead(c: Column, d: Dialect, rest: string)
    requires ClauseEnd(rest)
    ensures var s := UniqueClause(c, d) + rest;
      && (StartsWith(s, " UNIQUE") <==> d.MySQL? && c.isUnique && !c.isPrimaryKey)
      && rest == (if d.MySQL? && c.isUnique && !c.isPrimaryKey then s[7..] else s)
      && !StartsWith(s, " DEFAULT ") && !StartsWith(s, " NOT NULL")
  {
    var s := UniqueClause(c, d) + rest;
    Cut(UniqueClause(c, d), rest);
    assert "" + rest == rest;
    Letter(s, " UNIQUE");
    Letter(s, " DEFAULT ");
    Letter(s, " NOT NULL");
  }

  lemma Letter(s: string, p: string)
    requires |p| > 1
    ensures StartsWith(s, p) ==> |s| > 1 && s[0] == p[0] && s[1] == p[1]
  {}

  lemma DropTwice(t: string, i: nat, j: nat)
    requires i + j <= |t|
    ensures t[i..][j..] == t[i + j..]
  {}

  lemma DefaultRead(c: Column, s: string)
    requires !StartsWith(s, " DEFAULT ") && !StartsWith(s, " NOT NULL")
    ensures var t := DefaultClause(c) + s;
      && (StartsWith(t, " DEFAULT ") <==> HasDefault(c)) && !StartsWith(t, " NOT NULL")
      && (HasDefault(c) ==> StartsWith(t[9..], c.defaultText.value))
      && s == if HasDefault(c) then t[9 + |c.defaultText.value|..] else t
  {
    if HasDefault(c) {
      var t := DefaultClause(c) + s;
      assert t == " DEFAULT " + (c.defaultText.value + s);
      Cut(" DEFAULT ", c.defaultText.value + s);
      Cut(c.defaultText.value, s);
      DropTwice(t, 9, |c.defaultText.value|);
      Letter(t, " NOT NULL");
    } else {
      assert "" + s == s;
    }
  }

  lemma NullRead(c: Column, s: string)
    requires !StartsWith(s, " NOT NULL")
    ensures var t := NullClause(c) + s;
      (StartsWith(t, " NOT NULL") <==> !c.isNullable) && s == if c.isNullable then t else t[9..]
  {
    Cut(" NOT NULL", s);
    assert "" + s == s;
  }

  lemma ClausesRead(c: Column, d: Dialect, rest: string)
    requires ClauseEnd(rest)
    ensures ReadsClauses(NullClause(c) + (DefaultClause(c) + (UniqueClause(c, d) + rest)), c, d, rest)
  {
    UniqueRead(c, d, rest);
    DefaultRead(c, UniqueClause(c, d) + rest);
    NullRead(c, DefaultClause(c) + (UniqueClause(c, d) + rest));
    hide NullClause, DefaultClause, UniqueClause, HasDefault, StartsWith;
  }

  lemma DefinitionIs(c: Column, d: Dialect, rest: string)
    ensures "  " + ColumnDef(c, d) + rest == "  " + (QuoteIdentifier(c.name, d) +
      (" " + c.typeText + (NullClause(c) + (DefaultClause(c) + (UniqueClause(c, d) + rest)))))
  {
    hide QuoteIdentifier;
    var q, n, f, u := QuoteIdentifier(c.name, d), NullClause(c), DefaultClause(c), UniqueClause(c, d);
    assert ColumnDef(c, d) == q + " " + c.typeText + n + f + u;
    hide ColumnDef, NullClause, DefaultClause, UniqueClause;
    Chain(q, c.typeText, n, f, u, rest);
  }

  lemma Chain(q: string, t: string, n: string, f: string, u: string, rest: string)
    ensures "  " + (q + " " + t + n + f + u) + rest == "  " + (q + (" " + t + (n + (f + (u + rest)))))
  {
    assert q + " " + t + n + f + u == q + (" " + t + (n + (f + u)));
    assert (q + (" " + t + (n + (f + u)))) + rest == q + (" " + t + (n + (f + (u + rest))));
  }

  lemma ColumnRead(c: Column, d: Dialect, rest: string)
    requires ClauseEnd(rest)
    ensures ReadsColumn("  " + ColumnDef(c, d) + rest, c, d, rest)
  {
    hide ReadsClauses, Scan, Quote;
    var clauses := NullClause(c) + (DefaultClause(c) + (UniqueClause(c, d) + rest));
    ClausesRead(c, d, rest);
    DefinitionIs(c, d, rest);
    hide ColumnDef, NullClause, DefaultClause, UniqueClause;
    var typed := " " + c.typeText + clauses;
    QuoteRoundTrip(c.name, QuoteChar(d), typed);
    Cut("  ", QuoteIdentifier(c.name, d) + typed);
    Cut(" " + c.typeText, clauses);
  }

  lemma {:induction false} DefinitionsFirst(cols: seq<Column>, d: Dialect)
    requires cols != []
    ensures Definitions(cols, d) == ["  " + ColumnDef(cols[0], d)] + Definitions(cols[1..], d)
  {
    hide ColumnDef;
    if |cols| > 1 {
      DefinitionsFirst(cols[..|cols| - 1], d);
      assert cols[..|cols| - 1][1..] == cols[1..][..|cols| - 2];
    } else {
      assert cols[..0] == [] && cols[1..] == [];
    }
  }

  /** The printed definitions read back, in column order. */
  lemma {:induction false} DefinitionsRead(cols: seq<Column>, d: Dialect, tail: string)
    requires ClauseEnd(tail)
    ensures ReadsColumns(Join(Definitions(cols, d), ",\n") + tail, cols, d, tail)
  {
    hide ColumnDef, ReadsColumn;
    if cols == [] {
      assert "" + tail == tail;
    } else {
      DefinitionsFirst(cols, d);
      var first, others := "  " + ColumnDef(cols[0], d), Definitions(cols[1..], d);
      DefinitionsCount(cols[1..], d);
      hide Definitions;
      if |cols| == 1 {
        assert [first] + others == [first];
        ColumnRead(cols[0], d, tail);
      } else {
        var more := Join(others, ",\n") + tail;
        DefinitionsRead(cols[1..], d, tail);
        ColumnRead(cols[0], d, ",\n" + more);
        assert ([first] + others)[1..] == others;
        assert Join([first] + others, ",\n") == first + ",\n" + Join(others, ",\n");
        Regroup3(first, ",\n", Join(others, ",\n"), tail);
      }
    }
  }

  lemma {:induction false} DefinitionsCount(cols: seq<Column>, d: Dialect)
    ensures |Definitions(cols, d)| == |cols|
  {
    if cols != [] {
      DefinitionsCount(cols[..|cols| - 1], d);
    }
  }

  lemma Regroup3(a: string, b: string, c: string, d: string)
    ensures a + b + c + d == a + (b + (c + d))
  {}

  /** The end of a statement: its key clause, if it has a key. */
  function KeyClause(cols: seq<Column>, d: Dialect): string {
    if KeyNames(cols) == [] then "\n);"
    else ",\n  PRIMARY KEY (" + (Join(Quoted(KeyNames(cols), QuoteChar(d)), ", ") + ")\n);")
  }

  /** Behind the table name and an opening parenthesis, a statement reads as its columns in order
      and then its key clause. */
  ghost predicate StatementReads(sql: string, schema: Option<string>, name: string, cols: seq<Column>, d: Dialect) {
    exists body ::
      && sql == "CREATE TABLE " + TableName(schema, name, d) + " (\n" + body
      && ReadsColumns(body, cols, d, KeyClause(cols, d))
  }

  lemma StatementRead(sql: string, schema: Option<string>, name: string, cols: seq<Column>, d: Dialect)
    requires sql == BeforeKeys(schema, name, cols, d) + KeyClause(cols, d)
    ensures StatementReads(sql, schema, name, cols, d)
  {
    hide TableName, Join, Definitions, KeyClause, ReadsColumns;
    var keys := KeyClause(cols, d);
    KeyClauseEnds(cols, d);
    DefinitionsRead(cols, d, keys);
    var h, defs := "CREATE TABLE " + TableName(schema, name, d) + " (\n", Join(Definitions(cols, d), ",\n");
    assert h + defs + keys == h + (defs + keys);
  }

  lemma KeyClauseEnds(cols: seq<Column>, d: Dialect)
    ensures ClauseEnd(KeyClause(cols, d))
  {}

  method GenerateDDL(schema: Option<string>, name: string, cols: seq<Column>, d: Dialect) returns (sql: string)
    ensures KeyNames(cols) == [] ==> sql == BeforeKeys(schema, name, cols, d) + "\n);"
    ensures KeyNames(cols) != [] ==>
      sql == BeforeKeys(schema, name, cols, d) + ",\n  PRIMARY KEY (" +
             (Join(Quoted(KeyNames(cols), QuoteChar(d)), ", ") + ")\n);")
    ensures StatementReads(sql, schema, name, cols, d)
  {
    hide Join, ColumnDef, TableName, Quote, StatementReads, KeyClause, BeforeKeys;
    sql := "CREATE TABLE " + TableName(schema, name, d) + " (\n";
    var colDefs: seq<string>, pkCols: seq<string> := [], [];
    for i := 0 to |cols|
      invariant colDefs == Definitions(cols[..i], d)
      invariant pkCols == Quoted(KeyNames(cols[..i]), QuoteChar(d))
    {
      assert cols[..i + 1][..i] == cols[..i];
      colDefs := colDefs + ["  " + ColumnDef(cols[i], d)];
      if cols[i].isPrimaryKey {
        QuotedOneMore(KeyNames(cols[..i]), cols[i].name, QuoteChar(d));
        pkCols := pkCols + [QuoteIdentifier(cols[i].name, d)];
      }
    }
    assert cols[..|cols|] == cols;
    sql := sql + Join(colDefs, ",\n");
    if |pkCols| > 0 {
      sql := sql + ",\n  PRIMARY KEY (" + Join(pkCols, ", ") + ")";
    }
    sql := sql + "\n);";
    Assembled(schema, name, cols, d);
    StatementRead(sql, schema, name, cols, d);
  }

  /** The statement as it is put together, with and without a key. */
  lemma Assembled(schema: Option<string>, name: string, cols: seq<Column>, d: Dialect)
    ensures var h := "CREATE TABLE " + TableName(schema, name, d) + " (\n" + Join(Definitions(cols, d), ",\n");
      var keys := Quoted(KeyNames(cols), QuoteChar(d));
      && BeforeKeys(schema, name, cols, d) == h
      && (KeyNames(cols) == [] ==> h + "\n);" == BeforeKeys(schema, name, cols, d) + KeyClause(cols, d))
      && (KeyNames(cols) != [] ==>
            && h + (",\n  PRIMARY KEY (" + (Join(keys, ", ") + ")\n);")) ==
               BeforeKeys(schema, name, cols, d) + KeyClause(cols, d)
            && h + ",\n  PRIMARY KEY (" + Join(keys, ", ") + ")" + "\n);" ==
               BeforeKeys(schema, name, cols, d) + KeyClause(cols, d)
            && h + ",\n  PRIMARY KEY (" + (Join(keys, ", ") + ")\n);") ==
               BeforeKeys(schema, name, cols, d) + KeyClause(cols, d))
  {
    hide TableName, Join, Definitions, Quoted, KeyNames;
    var h := "CREATE TABLE " + TableName(schema, name, d) + " (\n" + Join(Definitions(cols, d), ",\n");
    var list := Join(Quoted(KeyNames(cols), QuoteChar(d)), ", ");
    assert KeyNames(cols) == [] ==> KeyClause(cols, d) == "\n);";
    assert KeyNames(cols) != [] ==> KeyClause(cols, d) == ",\n  PRIMARY KEY (" + (list + ")\n);");
    hide KeyClause, BeforeKeys;
    Closed(h, ",\n  PRIMARY KEY (", list);
  }

  lemma Closed(h: string, m: string, list: string)
    ensures h + (m + (list + ")\n);")) == h + m + list + ")" + "\n);"
    ensures h + (m + (list + ")\n);")) == h + m + (list + ")\n);")
  {}

  /** Reading the key list back from a printed statement gives the key names in column order. */
  lemma KeysReadBack(before: string, names: seq<string>, d: Dialect, sql: string)
    requires names != []
    requires sql == before + ",\n  PRIMARY KEY (" + (Join(Quoted(names, QuoteChar(d)), ", ") + ")\n);")
    ensures var at := |before + ",\n  PRIMARY KEY ("|;
      at <= |sql| && ScanList(sql[at..], QuoteChar(d)) == Some(ScannedList(names, ")\n);"))
  {
    KeyListRoundTrip(names, QuoteChar(d), ")\n);");
    hide ScanList, Join, Quoted;
    var head := before + ",\n  PRIMARY KEY (";
    assert sql[|head|..] == Join(Quoted(names, QuoteChar(d)), ", ") + ")\n);";
  }

  /** Reading the table name back: MySQL statements name the table right after CREATE TABLE. */
  lemma TableReadBackMySQL(schema: Option<string>, name: string, rest: string)
    ensures var sql := "CREATE TABLE " + TableName(schema, name, MySQL) + " (\n" + rest;
      Scan(sql[13..], '`') == Some(Scanned(name, " (\n" + rest))
  {
    QuoteRoundTrip(name, '`', " (\n" + rest);
    hide Quote, Scan;
    var sql := "CREATE TABLE " + TableName(schema, name, MySQL) + " (\n" + rest;
    assert sql[13..] == Quote(name, '`') + (" (\n" + rest);
  }

  /** Postgres statements name schema and table, with "public" for a missing or empty schema. */
  lemma TableReadBackPostgres(schema: Option<string>, name: string, rest: string)
    ensures var sql := "CREATE TABLE " + TableName(schema, name, PostgreSQL) + " (\n" + rest;
      exists after ::
        Scan(sql[13..], '"') == Some(Scanned(
          match schema case Some(x) => (if x == "" then "public" else x) case None => "public", "." + after))
        && Scan(after, '"') == Some(Scanned(name, " (\n" + rest))
  {
    var s := SchemaName(schema);
    var after := Quote(name, '"') + (" (\n" + rest);
    QuoteRoundTrip(name, '"', " (\n" + rest);
    QuoteRoundTrip(s, '"', "." + after);
    hide Quote, Scan;
    Regroup("CREATE TABLE ", Quote(s, '"'), Quote(name, '"'), " (\n", rest);
  }

  lemma Regroup(h: string, a: string, b: string, c: string, r: string)
    ensures (h + (a + "." + b) + c + r)[|h|..] == a + ("." + (b + (c + r)))
  {
    assert h + (a + "." + b) + c + r == h + (a + ("." + (b + (c + r))));
  }

  /** The positions of the primary-key columns. */
  function KeyPositions(cols: seq<Column>): seq<nat> {
    if cols == [] then []
    else KeyPositions(cols[..|cols| - 1]) + if cols[|cols| - 1].isPrimaryKey then [|cols| - 1] else []
  }

  lemma {:induction false} PositionsAre(cols: seq<Column>)
    ensures forall n: nat :: n in KeyPositions(cols) <==> n < |cols| && cols[n].isPrimaryKey
  {
    if cols != [] {
      PositionsAre(cols[..|cols| - 1]);
    }
  }

  lemma {:induction false} PositionsIncrease(cols: seq<Column>)
    ensures forall i, j | 0 <= i < j < |KeyPositions(cols)| :: KeyPositions(cols)[i] < KeyPositions(cols)[j]
  {
    if cols != [] {
      var init := cols[..|cols| - 1];
      PositionsIncrease(init);
      PositionsAre(init);
      assert forall i | 0 <= i < |KeyPositions(init)| :: KeyPositions(init)[i] in KeyPositions(init);
    }
  }

  /** The key names are the names of exactly the primary-key columns, in column order: the i-th is
      the name of the column at the i-th of their increasing positions. */
  lemma {:induction false} KeyNamesAre(cols: seq<Column>)
    ensures |KeyNames(cols)| == |KeyPositions(cols)|
    ensures forall i | 0 <= i < |KeyNames(cols)| ::
      KeyPositions(cols)[i] < |cols| && KeyNames(cols)[i] == cols[KeyPositions(cols)[i]].name
    ensures forall n: nat :: n in KeyPositions(cols) <==> n < |cols| && cols[n].isPrimaryKey
    ensures forall i, j | 0 <= i < j < |KeyPositions(cols)| :: KeyPositions(cols)[i] < KeyPositions(cols)[j]
  {
    PositionsAre(cols);
    PositionsIncrease(cols);
    NamesAtPositions(cols);
    hide KeyNames, KeyPositions;
  }

  lemma {:induction false} NamesAtPositions(cols: seq<Column>)
    ensures |KeyNames(cols)| == |KeyPositions(cols)|
    ensures forall i | 0 <= i < |KeyNames(cols)| ::
      KeyPositions(cols)[i] < |cols| && KeyNames(cols)[i] == cols[KeyPositions(cols)[i]].name
  {
    if cols != [] {
      NamesAtPositions(cols[..|cols| - 1]);
    }
  }

  // ---------------------------------------------------------------- finding the key list

  const MARK := ",\n  PRIMARY KEY ("
  const TAIL := ")\n);"

  /** The names, if a key list stands at a position: after the mark, and up to the statement's tail. */
  function ReadKeysAt(sql: string, q: char, at: nat): Option<seq<string>> {
    if |MARK| <= at <= |sql| && sql[at - |MARK|..at] == MARK then
      var l := ScanList(sql[at..], q);
      if l.Some? && l.value.rest == TAIL then Some(l.value.names) else None
    else None
  }

  /** The last position at or before `at` where a key list stands. */
  function ReadKeysFrom(sql: string, q: char, at: nat): Option<seq<string>> {
    var r := ReadKeysAt(sql, q, at);
    if r.Some? || at == 0 then r else ReadKeysFrom(sql, q, at - 1)
  }

  function ReadKeys(sql: string, d: Dialect): Option<seq<string>> {
    ReadKeysFrom(sql, QuoteChar(d), |sql|)
  }

  function Count(s: string, q: char): nat {
    if s == "" then 0 else (if s[0] == q then 1 else 0) + Count(s[1..], q)
  }

  lemma {:induction false} CountAppend(s: string, t: string, q: char)
    ensures Count(s + t, q) == Count(s, q) + Count(t, q)
  {
    if s == "" {
      assert s + t == t;
    } else {
      CountAppend(s[1..], t, q);
      assert (s + t)[1..] == s[1..] + t;
    }
  }

  lemma {:induction false} ScanBodyCount(s: string, q: char)
    requires ScanBody(s, q).Some?
    ensures Count(s, q) >= Count(ScanBody(s, q).value.rest, q)
    ensures (Count(s, q) - Count(ScanBody(s, q).value.rest, q)) % 2 == 1
    decreases |s|
  {
    if s[0] != q {
      ScanBodyCount(s[1..], q);
    } else if |s| > 1 && s[1] == q {
      ScanBodyCount(s[2..], q);
      assert s[1..][1..] == s[2..];
    }
  }

  /** A list that parses has an even number of quotes. */
  lemma {:induction false} ScanListCount(s: string, q: char)
    requires ScanList(s, q).Some? && q != ',' && q != ' '
    ensures Count(s, q) >= Count(ScanList(s, q).value.rest, q)
    ensures (Count(s, q) - Count(ScanList(s, q).value.rest, q)) % 2 == 0
    decreases |s|
  {
    ScanBodyCount(s[1..], q);
    ScanShorter(s, q);
    var rest := Scan(s, q).value.rest;
    if StartsWith(rest, ", ") {
      ScanListCount(rest[2..], q);
      assert rest[1..][1..] == rest[2..] && rest[0] == ',' && rest[1] == ' ';
    }
  }

  /** Within a doubled name, what follows anything but a quote has an even number of quotes. */
  lemma {:induction false} DoubledSuffix(name: string, q: char, p: nat)
    requires p <= |Doubled(name, q)| && (p > 0 ==> Doubled(name, q)[p - 1] != q)
    ensures Count(Doubled(name, q)[p..], q) % 2 == 0
  {
    if name != "" {
      var piece, more := if name[0] == q then [q, q] else [name[0]], Doubled(name[1..], q);
      var d := Doubled(name, q);
      assert d == piece + more;
      if p == 0 {
        DoubledSuffix(name[1..], q, 0);
        CountAppend(piece, more, q);
        PieceCount(name[0], q);
        assert d[0..] == d && more[0..] == more;
      } else {
        assert p >= |piece|;
        DoubledSuffix(name[1..], q, p - |piece|);
        assert d[p..] == more[p - |piece|..];
      }
    }
  }

  lemma PieceCount(c: char, q: char)
    ensures Count(if c == q then [q, q] else [c], q) % 2 == 0
  {
    assert [c][1..] == "" && [q][1..] == "" && [q, q] == [q] + [q];
    CountAppend([q], [q], q);
  }

  function ListText(names: seq<string>, q: char): string
    requires names != []
  {
    Join(Quoted(names, q), ", ") + TAIL
  }

  /** What follows the first quoted name of a list. */
  function AfterFirst(names: seq<string>, q: char): string
    requires names != []
  {
    if |names| == 1 then TAIL else ", " + ListText(names[1..], q)
  }

  lemma ListTextFirst(names: seq<string>, q: char)
    requires names != []
    ensures ListText(names, q) == [q] + (Doubled(names[0], q) + ([q] + AfterFirst(names, q)))
  {
    hide Doubled, Join, Quoted;
    if |names| > 1 {
      JoinedFirst(names, q, TAIL);
    } else {
      OneQuoted(names[0], q);
      assert names == [names[0]];
    }
    QuoteThen(Doubled(names[0], q), q, AfterFirst(names, q));
  }

  lemma OneQuoted(name: string, q: char)
    ensures Join(Quoted([name], q), ", ") == Quote(name, q)
  {}

  lemma QuoteThen(d: string, q: char, r: string)
    ensures ([q] + d + [q]) + r == [q] + (d + ([q] + r))
  {}

  predicate QuoteLike(q: char) { q !in ", ()\n;" }

  lemma {:induction false} NoneCounted(s: string, q: char)
    requires q !in s
    ensures Count(s, q) == 0
  {
    if s != "" {
      NoneCounted(s[1..], q);
    }
  }

  lemma TailCount(q: char)
    requires QuoteLike(q)
    ensures Count(TAIL, q) == 0
  {
    NoneCounted(TAIL, q);
  }

  lemma {:induction false} ListTextCount(names: seq<string>, q: char)
    requires names != [] && QuoteLike(q)
    ensures Count(ListText(names, q), q) % 2 == 0 && Count(AfterFirst(names, q), q) % 2 == 0
  {
    hide ListText, Doubled;
    TailCount(q);
    if |names| > 1 {
      ListTextCount(names[1..], q);
      CountAppend(", ", ListText(names[1..], q), q);
      assert ", "[1..] == " " && " "[1..] == "";
    }
    var d, r := Doubled(names[0], q), AfterFirst(names, q);
    ListTextFirst(names, q);
    DoubledSuffix(names[0], q, 0);
    assert d[0..] == d && [q][1..] == "";
    CountAppend([q], d + ([q] + r), q);
    CountAppend(d, [q] + r, q);
    CountAppend([q], r, q);
  }

  /** From behind any opening parenthesis inside a key list on, the number of quotes is odd. */
  lemma {:induction false} OddInside(names: seq<string>, q: char, p: nat)
    requires names != [] && QuoteLike(q)
    requires 0 < p <= |ListText(names, q)| && ListText(names, q)[p - 1] == '('
    ensures Count(ListText(names, q)[p..], q) % 2 == 1
    decreases |names|
  {
    hide ListText, Doubled, AfterFirst;
    ListTextFirst(names, q);
    ListTextCount(names, q);
    var s, d, r := ListText(names, q), Doubled(names[0], q), AfterFirst(names, q);
    if p <= 1 + |d| {
      assert d[p - 2] == '(';
      DoubledSuffix(names[0], q, p - 1);
      assert s[p..] == d[p - 1..] + ([q] + r);
      CountAppend(d[p - 1..], [q] + r, q);
      CountAppend([q], r, q);
      assert [q][1..] == "";
    } else {
      var m := p - 2 - |d|;
      BehindFirst(q, d, r, m);
      assert m > 0 && r[m - 1] == '(' && s[p..] == r[m..];
      InRest(names, q, m);
      if |names| > 1 {
        OddInside(names[1..], q, m - 2);
      }
    }
  }

  lemma BehindFirst(q: char, d: string, r: string, m: int)
    requires 0 <= m <= |r|
    ensures |[q] + (d + ([q] + r))| == |d| + 2 + |r|
    ensures ([q] + (d + ([q] + r)))[m + 2 + |d|..] == r[m..]
    ensures m > 0 ==> ([q] + (d + ([q] + r)))[m + 1 + |d|] == r[m - 1]
  {}

  lemma InRest(names: seq<string>, q: char, m: nat)
    requires names != [] && 0 < m <= |AfterFirst(names, q)| && AfterFirst(names, q)[m - 1] == '('
    ensures |names| > 1 && 0 < m - 2 <= |ListText(names[1..], q)| && ListText(names[1..], q)[m - 3] == '('
    ensures AfterFirst(names, q)[m..] == ListText(names[1..], q)[m - 2..]
  {
    hide ListText;
  }

  lemma {:induction false} FoundFrom(sql: string, q: char, at: nat, from: nat)
    requires at <= from && ReadKeysAt(sql, q, at).Some?
    requires forall p | at < p <= from :: ReadKeysAt(sql, q, p) == None
    ensures ReadKeysFrom(sql, q, from) == ReadKeysAt(sql, q, at)
  {
    if from > at {
      FoundFrom(sql, q, at, from - 1);
    }
  }

  /** Behind the true key list no other one stands. */
  lemma NoneBehind(before: string, names: seq<string>, q: char, p: nat)
    requires names != [] && QuoteLike(q)
    requires var sql := before + MARK + ListText(names, q); |before + MARK| < p <= |sql|
    ensures ReadKeysAt(before + MARK + ListText(names, q), q, p) == None
  {
    hide ListText, ScanList;
    var sql, at := before + MARK + ListText(names, q), |before + MARK|;
    if sql[p - |MARK|..p] == MARK && ScanList(sql[p..], q).Some? && ScanList(sql[p..], q).value.rest == TAIL {
      assert MARK[|MARK| - 1] == '(' == sql[p - 1];
      assert sql[p - 1] == ListText(names, q)[p - 1 - at] && sql[p..] == ListText(names, q)[p - at..];
      OddInside(names, q, p - at);
      ScanListCount(sql[p..], q);
      TailCount(q);
    }
  }

  /** Reading the printed statement, wherever its key list stands in it, gives the key names in
      column order. */
  lemma StatementReadsBack(schema: Option<string>, name: string, cols: seq<Column>, d: Dialect, sql: string)
    requires KeyNames(cols) != []
    requires sql == BeforeKeys(schema, name, cols, d) + ",\n  PRIMARY KEY (" +
                    (Join(Quoted(KeyNames(cols), QuoteChar(d)), ", ") + ")\n);")
    ensures ReadKeys(sql, d) == Some(KeyNames(cols))
  {
    hide Join, Quoted, KeyNames, BeforeKeys, ScanList;
    var before, names, q := BeforeKeys(schema, name, cols, d), KeyNames(cols), QuoteChar(d);
    var at := |before + MARK|;
    assert sql == before + MARK + ListText(names, q);
    KeysReadBack(before, names, d, sql);
    assert sql[at - |MARK|..at] == MARK;
    forall p | at < p <= |sql| ensures ReadKeysAt(sql, q, p) == None {
      NoneBehind(before, names, q, p);
    }
    FoundFrom(sql, q, at, |sql|);
  }
}
