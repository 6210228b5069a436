/** The SQL table script builder: an editable list of column definitions, the
    validity check that gates the Generate button, the default-value quoting and
    the T-SQL `IF NOT EXISTS ... CREATE TABLE` script. */
module SqlTableGenerator {
  import opened Strings

  /** One row of the column editor. An optional field that was never set reads as
      `undefined`, which every use treats exactly like `""`, so it is `""` here. */
  datatype Column = Column(
    name: string,
    sqlType: string,
    nullable: bool,
    defaultValue: string,
    fkTable: string,
    fkColumn: string)

  /** The row `addColumn` appends and the editor starts with. */
  const NewColumn := Column("", "VARCHAR(50)", false, "", "", "")

  // ---------------------------------------------------------------------------
  // editing one field of a column (`{ ...column, [key]: value }`)

  datatype Key = NameKey | TypeKey | NullableKey | DefaultKey | FkTableKey | FkColumnKey

  /** A key together with a value of that key's type. */
  datatype Field =
    | Name(s: string)
    | SqlType(s: string)
    | Nullable(b: bool)
    | Default(s: string)
    | FkTable(s: string)
    | FkColumn(s: string)

  function KeyOf(f: Field): Key {
    match f
    case Name(_) => NameKey
    case SqlType(_) => TypeKey
    case Nullable(_) => NullableKey
    case Default(_) => DefaultKey
    case FkTable(_) => FkTableKey
    case FkColumn(_) => FkColumnKey
  }

  /** `column[key]`. */
  function Get(c: Column, k: Key): (f: Field)
    ensures KeyOf(f) == k
  {
    match k
    case NameKey => Name(c.name)
    case TypeKey => SqlType(c.sqlType)
    case NullableKey => Nullable(c.nullable)
    case DefaultKey => Default(c.defaultValue)
    case FkTableKey => FkTable(c.fkTable)
    case FkColumnKey => FkColumn(c.fkColumn)
  }

  /** `{ ...c, [key]: value }`. */
  function Set(c: Column, f: Field): Column {
    match f
    case Name(s) => c.(name := s)
    case SqlType(s) => c.(sqlType := s)
    case Nullable(b) => c.(nullable := b)
    case Default(s) => c.(defaultValue := s)
    case FkTable(s) => c.(fkTable := s)
    case FkColumn(s) => c.(fkColumn := s)
  }

  /** Setting a field changes that field and no other. */
  lemma SetChangesOnlyItsKey(c: Column, f: Field)
    ensures Get(Set(c, f), KeyOf(f)) == f
    ensures forall k: Key | k != KeyOf(f) :: Get(Set(c, f), k) == Get(c, k)
  {
  }

  /** A column is determined by its six fields. */
  lemma ColumnsEqualByFields(a: Column, b: Column)
    requires forall k: Key :: Get(a, k) == Get(b, k)
    ensures a == b
  {
    assert Get(a, NameKey) == Get(b, NameKey) && Get(a, TypeKey) == Get(b, TypeKey);
    assert Get(a, NullableKey) == Get(b, NullableKey) && Get(a, DefaultKey) == Get(b, DefaultKey);
    assert Get(a, FkTableKey) == Get(b, FkTableKey) && Get(a, FkColumnKey) == Get(b, FkColumnKey);
  }

  // ---------------------------------------------------------------------------
  // removing a row (`columns.filter((_, i) => i !== index)`)

  function RemoveAt(cs: seq<Column>, index: int): (r: seq<Column>)
    ensures 0 <= index < |cs| ==> |r| == |cs| - 1
    ensures !(0 <= index < |cs|) ==> r == cs
  {
    if 0 <= index < |cs| then cs[..index] + cs[index + 1..] else cs
  }

  /** The rows that remain are all the others, in their old order. */
  lemma RemoveAtKeepsOthers(cs: seq<Column>, index: int)
    requires 0 <= index < |cs|
    ensures forall k | 0 <= k < index :: RemoveAt(cs, index)[k] == cs[k]
    ensures forall k | index < k < |cs| :: RemoveAt(cs, index)[k - 1] == cs[k]
    ensures multiset(RemoveAt(cs, index)) + multiset{cs[index]} == multiset(cs)
  {
    assert cs == cs[..index] + [cs[index]] + cs[index + 1..];
  }

  // ---------------------------------------------------------------------------
  // validity (`isValid`)

  predicate Blank(s: string) {
    Trim(s) == ""
  }

  /** The key two column names must not share: trimmed and lower-cased. */
  function NormalizedName(c: Column): string {
    ToLower(Trim(c.name))
  }

  /** `columns.map((c) => c.name.trim().toLowerCase())`. */
  function NormalizedNames(cs: seq<Column>): (r: seq<string>)
    ensures |r| == |cs|
    ensures forall i | 0 <= i < |cs| :: r[i] == NormalizedName(cs[i])
  {
    seq(|cs|, i requires 0 <= i < |cs| => NormalizedName(cs[i]))
  }

  /** `new Set(xs)`: the elements, inserted one after another. */
  function ElemSet<T>(xs: seq<T>): set<T> {
    if xs == [] then {} else {xs[0]} + ElemSet(xs[1..])
  }

  predicate ColumnComplete(c: Column) {
    !Blank(c.name) && !Blank(c.sqlType) && (c.fkTable == "" || !Blank(c.fkColumn))
  }

  predicate AllComplete(cs: seq<Column>) {
    forall i | 0 <= i < |cs| :: ColumnComplete(cs[i])
  }

  /** `isValid`: a table name, at least one column, every column named and typed,
      a referenced column for every foreign table, and no two names equal up to
      case and surrounding whitespace (the set of names is as large as the list). */
  predicate IsValid(tableName: string, cs: seq<Column>) {
    !Blank(tableName) && |cs| > 0 && AllComplete(cs) && |ElemSet(NormalizedNames(cs))| == |cs|
  }

  predicate Distinct<T(==)>(xs: seq<T>) {
    forall i, j | 0 <= i < j < |xs| :: xs[i] != xs[j]
  }

  lemma {:induction false} ElemSetMembers<T>(xs: seq<T>)
    ensures forall x :: x in ElemSet(xs) <==> x in xs
  {
    if xs != [] {
      ElemSetMembers(xs[1..]);
      assert xs == [xs[0]] + xs[1..];
    }
  }

  /** A sequence has as many distinct elements as entries exactly when no element
      repeats; it never has more. */
  lemma {:induction false} ElemSetSize<T>(xs: seq<T>)
    ensures |ElemSet(xs)| <= |xs|
    ensures |ElemSet(xs)| == |xs| <==> Distinct(xs)
  {
    if xs != [] {
      var rest := xs[1..];
      ElemSetSize(rest);
      ElemSetMembers(rest);
      if xs[0] in ElemSet(rest) {
        var j :| 0 <= j < |rest| && rest[j] == xs[0];
        assert xs[0] == xs[j + 1];
      } else {
        assert |ElemSet(xs)| == |ElemSet(rest)| + 1;
        DistinctCons(xs);
      }
    }
  }

  lemma DistinctCons<T>(xs: seq<T>)
    requires xs != [] && xs[0] !in xs[1..]
    ensures Distinct(xs) <==> Distinct(xs[1..])
  {
    var rest := xs[1..];
    if Distinct(rest) {
      forall i, j | 0 <= i < j < |xs| ensures xs[i] != xs[j] {
        assert xs[j] == rest[j - 1];
        if i > 0 {
          assert xs[i] == rest[i - 1];
        }
      }
    }
  }

  /** Validity restated with pairwise-distinct names. */
  lemma IsValidIff(tableName: string, cs: seq<Column>)
    ensures IsValid(tableName, cs) <==>
      !Blank(tableName) && |cs| > 0 && AllComplete(cs)
      && forall i, j | 0 <= i < j < |cs| :: NormalizedName(cs[i]) != NormalizedName(cs[j])
  {
    ElemSetSize(NormalizedNames(cs));
  }

  /** Adding a row to a valid table makes it invalid until the new row is named. */
  lemma AddColumnInvalidates(tableName: string, cs: seq<Column>)
    ensures !IsValid(tableName, cs + [NewColumn])
  {
    var n := cs + [NewColumn];
    assert n[|cs|] == NewColumn;
    TrimEmpty();
    assert !ColumnComplete(n[|cs|]);
  }

  /** A valid form always has a table name, so Generate never does nothing. */
  lemma ValidHasTableName(tableName: string, cs: seq<Column>)
    requires IsValid(tableName, cs)
    ensures tableName != ""
  {
    TrimEmpty();
  }

  // ---------------------------------------------------------------------------
  // default values (`formatDefaultValue`)

  const StringTypes: seq<string> := ["CHAR", "VARCHAR", "TEXT", "NVARCHAR", "NCHAR"]

  /** `s.includes(p)`. */
  predicate Includes(s: string, p: string) {
    exists i | 0 <= i <= |s| :: OccursAt(s, p, i)
  }

  /** `stringTypes.some((t) => type.toUpperCase().includes(t))`. */
  predicate IsStringType(sqlType: string) {
    exists k | 0 <= k < |StringTypes| :: Includes(ToUpper(sqlType), StringTypes[k])
  }

  /** Every string type name contains `CHAR` or `TEXT`, so only those two matter. */
  lemma StringTypeIff(sqlType: string)
    ensures IsStringType(sqlType) <==> Includes(ToUpper(sqlType), "CHAR") || Includes(ToUpper(sqlType), "TEXT")
  {
    var u := ToUpper(sqlType);
    if IsStringType(sqlType) {
      var k :| 0 <= k < |StringTypes| && Includes(u, StringTypes[k]);
      var i :| OccursAt(u, StringTypes[k], i);
      if k == 1 {
        Suffix(u, "VARCHAR", i, 3);
        assert OccursAt(u, "CHAR", i + 3);
      } else if k == 3 {
        Suffix(u, "NVARCHAR", i, 4);
        assert OccursAt(u, "CHAR", i + 4);
      } else if k == 4 {
        Suffix(u, "NCHAR", i, 1);
        assert OccursAt(u, "CHAR", i + 1);
      }
    }
    if Includes(u, "CHAR") {
      assert Includes(u, StringTypes[0]);
    }
    if Includes(u, "TEXT") {
      assert Includes(u, StringTypes[2]);
    }
  }

  /** An occurrence of `p` contains an occurrence of each suffix of `p`. */
  lemma Suffix(s: string, p: string, i: int, d: nat)
    requires OccursAt(s, p, i) && d <= |p|
    ensures OccursAt(s, p[d..], i + d)
  {
    assert s[i + d..i + |p|] == s[i..i + |p|][d..];
  }

  /** `s.replace(/'/g, "''")`. */
  function EscapeQuotes(s: string): (r: string)
    ensures |r| >= |s|
  {
    if s == [] then [] else (if s[0] == '\'' then "''" else [s[0]]) + EscapeQuotes(s[1..])
  }

  /** How SQL reads the inside of a quoted literal: `''` stands for one `'`. */
  function UnescapeQuotes(r: string): string {
    if r == [] then []
    else if |r| >= 2 && r[0] == '\'' && r[1] == '\'' then "'" + UnescapeQuotes(r[2..])
    else [r[0]] + UnescapeQuotes(r[1..])
  }

  /** Every `'` is one of a pair, so the text cannot end the literal early. */
  predicate WellEscaped(r: string) {
    if r == [] then true
    else if r[0] == '\'' then |r| >= 2 && r[1] == '\'' && WellEscaped(r[2..])
    else WellEscaped(r[1..])
  }

  /** Escaping is undone by SQL's reading of the literal, and leaves no lone quote. */
  lemma {:induction false} EscapeRoundTrip(s: string)
    ensures WellEscaped(EscapeQuotes(s))
    ensures UnescapeQuotes(EscapeQuotes(s)) == s
  {
    if s != [] {
      EscapeRoundTrip(s[1..]);
      var r := EscapeQuotes(s);
      if s[0] == '\'' {
        assert r[2..] == EscapeQuotes(s[1..]);
      } else {
        assert r[1..] == EscapeQuotes(s[1..]);
      }
      assert s == [s[0]] + s[1..];
    }
  }

  /** Values written verbatim: `NULL` in any case, a function call, or an
      already-quoted literal. */
  predicate KeptVerbatim(t: string) {
    ToUpper(t) == "NULL" || EndsWith(t, "()") || StartsWith(t, "'")
  }

  /** `formatDefaultValue(type, value)`. */
  function FormatDefaultValue(sqlType: string, value: string): (r: string)
    ensures r == "" <==> Blank(value)
  {
    var t := Trim(value);
    if t == "" then ""
    else if KeptVerbatim(t) then t
    else if IsStringType(sqlType) then "'" + EscapeQuotes(t) + "'"
    else t
  }

  /** The value is quoted exactly when it is non-blank, not kept verbatim, and the
      column has a string type; a quoted value is a literal SQL reads back as the
      trimmed value. Otherwise the result is the trimmed value. */
  lemma FormatDefaultQuoting(sqlType: string, value: string)
    ensures var t := Trim(value);
      var r := FormatDefaultValue(sqlType, value);
      (r != t <==> t != "" && !KeptVerbatim(t) && IsStringType(sqlType))
      && (r != t ==>
            |r| >= 2 && r[0] == '\'' && r[|r| - 1] == '\''
            && WellEscaped(r[1..|r| - 1]) && UnescapeQuotes(r[1..|r| - 1]) == t)
  {
    var t := Trim(value);
    var r := FormatDefaultValue(sqlType, value);
    if t != "" && !KeptVerbatim(t) && IsStringType(sqlType) {
      EscapeRoundTrip(t);
      assert r[1..|r| - 1] == EscapeQuotes(t);
    }
  }

  // ---------------------------------------------------------------------------
  // the script (`generateSql`)

  const IdColumn := "[Id] INT IDENTITY(1,1) NOT NULL"

  /** The indentation that separates list items in the script. */
  const ListSeparator := ",\n        "

  function FullTableName(tableName: string, schema: string): string {
    if schema != "" then "[" + schema + "].[" + tableName + "]" else "[" + tableName + "]"
  }

  function PkConstraint(tableName: string): string {
    "CONSTRAINT PK_" + tableName + " PRIMARY KEY CLUSTERED ([Id] ASC)"
  }

  /** The parts of a column definition, joined by spaces. */
  function ColumnParts(tableName: string, c: Column): (parts: seq<string>)
    ensures 2 <= |parts| <= 3
    ensures parts[0] == "[" + c.name + "] " + c.sqlType
    ensures parts[1] == (if c.nullable then "NULL" else "NOT NULL")
    ensures |parts| == 3 <==> c.defaultValue != ""
    ensures |parts| == 3 ==>
      parts[2] == "CONSTRAINT DF_" + tableName + "_" + c.name + " DEFAULT "
                  + FormatDefaultValue(c.sqlType, c.defaultValue)
  {
    var parts := ["[" + c.name + "] " + c.sqlType, if c.nullable then "NULL" else "NOT NULL"];
    if c.defaultValue != "" then
      parts + ["CONSTRAINT DF_" + tableName + "_" + c.name + " DEFAULT "
               + FormatDefaultValue(c.sqlType, c.defaultValue)]
    else parts
  }

  function ColumnDef(tableName: string, c: Column): string {
    Join(ColumnParts(tableName, c), " ")
  }

  /** `colDefs`: the identity column, then one definition per row, in order. */
  function ColumnDefs(tableName: string, cs: seq<Column>): (defs: seq<string>)
    ensures |defs| == |cs| + 1 && defs[0] == IdColumn
    ensures forall i | 0 <= i < |cs| :: defs[i + 1] == ColumnDef(tableName, cs[i])
  {
    [IdColumn] + seq(|cs|, i requires 0 <= i < |cs| => ColumnDef(tableName, cs[i]))
  }

  predicate HasForeignKey(c: Column) {
    c.fkTable != "" && c.fkColumn != ""
  }

  function ForeignKeyDef(tableName: string, c: Column): string {
    "CONSTRAINT FK_" + tableName + "_" + c.fkTable + "_" + c.name + " FOREIGN KEY ([" + c.name
    + "]) REFERENCES [dbo].[" + c.fkTable + "]([" + c.fkColumn + "])"
  }

  /** `fkDefs`: the rows with both a foreign table and a foreign column. */
  function ForeignKeys(tableName: string, cs: seq<Column>): (fks: seq<string>)
    ensures |fks| <= |cs|
  {
    if cs == [] then []
    else
      var head := if HasForeignKey(cs[0]) then [ForeignKeyDef(tableName, cs[0])] else [];
      head + ForeignKeys(tableName, cs[1..])
  }

  /** The constraints follow the rows' order: those for a concatenation are the
      ones for the first part followed by those for the second. */
  lemma {:induction false} ForeignKeysAppend(tableName: string, a: seq<Column>, b: seq<Column>)
    ensures ForeignKeys(tableName, a + b) == ForeignKeys(tableName, a) + ForeignKeys(tableName, b)
  {
    if a == [] {
      assert a + b == b;
    } else {
      var head := if HasForeignKey(a[0]) then [ForeignKeyDef(tableName, a[0])] else [];
      assert (a + b)[0] == a[0] && (a + b)[1..] == a[1..] + b;
      assert ForeignKeys(tableName, a + b) == head + ForeignKeys(tableName, a[1..] + b);
      ForeignKeysAppend(tableName, a[1..], b);
      SeqAssoc(head, ForeignKeys(tableName, a[1..]), ForeignKeys(tableName, b));
    }
  }

  lemma SeqAssoc<T>(x: seq<T>, y: seq<T>, z: seq<T>)
    ensures x + (y + z) == (x + y) + z
  {
  }

  /** Every foreign-key constraint comes from a row with both fields set. */
  lemma {:induction false} ForeignKeysSound(tableName: string, cs: seq<Column>, k: nat)
    requires k < |ForeignKeys(tableName, cs)|
    ensures exists i | 0 <= i < |cs| ::
      HasForeignKey(cs[i]) && ForeignKeys(tableName, cs)[k] == ForeignKeyDef(tableName, cs[i])
  {
    var rest := cs[1..];
    if HasForeignKey(cs[0]) && k == 0 {
      assert ForeignKeys(tableName, cs)[0] == ForeignKeyDef(tableName, cs[0]);
    } else {
      var d := if HasForeignKey(cs[0]) then 1 else 0;
      assert ForeignKeys(tableName, cs)[k] == ForeignKeys(tableName, rest)[k - d];
      ForeignKeysSound(tableName, rest, k - d);
      var i :| 0 <= i < |rest| && HasForeignKey(rest[i])
        && ForeignKeys(tableName, rest)[k - d] == ForeignKeyDef(tableName, rest[i]);
      assert cs[i + 1] == rest[i];
    }
  }

  /** Every row with both foreign-key fields set gets its constraint. */
  lemma {:induction false} ForeignKeysComplete(tableName: string, cs: seq<Column>, i: nat)
    requires i < |cs| && HasForeignKey(cs[i])
    ensures ForeignKeyDef(tableName, cs[i]) in ForeignKeys(tableName, cs)
  {
    if i > 0 {
      ForeignKeysComplete(tableName, cs[1..], i - 1);
      assert cs[1..][i - 1] == cs[i];
    }
  }

  /** Every foreign key references the `dbo` schema, whatever schema the table is in. */
  lemma ForeignKeyReferencesDbo(tableName: string, c: Column)
    ensures Includes(ForeignKeyDef(tableName, c), "REFERENCES [dbo].[" + c.fkTable + "]([" + c.fkColumn + "])")
  {
    var pre := "CONSTRAINT FK_" + tableName + "_" + c.fkTable + "_" + c.name + " FOREIGN KEY ([" + c.name + "]) ";
    var ref := "REFERENCES [dbo].[" + c.fkTable + "]([" + c.fkColumn + "])";
    assert ForeignKeyDef(tableName, c) == pre + ref;
    assert OccursAt(ForeignKeyDef(tableName, c), ref, |pre|);
  }

  const ScriptStart := "IF NOT EXISTS ("
  const ScriptEnd := "\n    );\nEND"

  /** The `WHERE` clause, with the schema test only when a schema is set. */
  function ExistenceCheck(tableName: string, schema: string): string {
    "\n    SELECT 1\n    FROM sys.tables t\n    JOIN sys.schemas s ON t.schema_id = s.schema_id\n"
    + "    WHERE t.name = '" + tableName + "'\n    "
    + (if schema != "" then "AND s.name = '" + schema + "'" else "")
    + "\n)"
  }

  /** The list inside `CREATE TABLE (...)`. */
  function Definitions(tableName: string, cs: seq<Column>): string {
    var fks := ForeignKeys(tableName, cs);
    Join(ColumnDefs(tableName, cs), ListSeparator) + ListSeparator + PkConstraint(tableName)
    + (if |fks| > 0 then ListSeparator + Join(fks, ListSeparator) else "")
  }

  /** The definitions are one comma-separated list: the columns, the primary key,
      then the foreign keys. */
  lemma DefinitionsList(tableName: string, cs: seq<Column>)
    ensures Definitions(tableName, cs)
      == Join(ColumnDefs(tableName, cs) + [PkConstraint(tableName)] + ForeignKeys(tableName, cs), ListSeparator)
  {
    ListShape(ColumnDefs(tableName, cs), PkConstraint(tableName), ForeignKeys(tableName, cs), ListSeparator);
  }

  lemma ListShape(defs: seq<string>, pk: string, fks: seq<string>, sep: string)
    requires defs != []
    ensures Join(defs, sep) + sep + pk + (if |fks| > 0 then sep + Join(fks, sep) else "")
      == Join(defs + [pk] + fks, sep)
  {
    JoinAppend(defs, pk, sep);
    if |fks| > 0 {
      JoinConcat(defs + [pk], fks, sep);
    } else {
      assert defs + [pk] + fks == defs + [pk];
    }
  }

  /** What generating leaves in the output: nothing happens without a table name. */
  method NextSql(tableName: string, schema: string, cs: seq<Column>, current: string) returns (r: string)
    ensures r == (if tableName == "" then current else CreateTableSql(tableName, schema, cs))
  {
    if tableName == "" {
      r := current;
    } else {
      r := CreateTableSql(tableName, schema, cs);
    }
  }

  /** The script between the template's leading and trailing newlines. */
  function ScriptBody(tableName: string, schema: string, cs: seq<Column>): string {
    ScriptStart + ScriptMiddle(tableName, schema, cs) + ScriptEnd
  }

  function ScriptMiddle(tableName: string, schema: string, cs: seq<Column>): string {
    ExistenceCheck(tableName, schema)
    + "\nBEGIN\n    CREATE TABLE " + FullTableName(tableName, schema) + "\n    (\n        "
    + Definitions(tableName, cs)
  }

  /** The template literal, trimmed. */
  function CreateTableSql(tableName: string, schema: string, cs: seq<Column>): string {
    Trim("\n" + ScriptBody(tableName, schema, cs) + "\n")
  }

  /** Trimming removes exactly the template's two newlines. */
  lemma CreateTableSqlIsBody(tableName: string, schema: string, cs: seq<Column>)
    ensures CreateTableSql(tableName, schema, cs) == ScriptBody(tableName, schema, cs)
    ensures StartsWith(CreateTableSql(tableName, schema, cs), ScriptStart)
    ensures EndsWith(CreateTableSql(tableName, schema, cs), ScriptEnd)
  {
    var mid := ScriptMiddle(tableName, schema, cs);
    TrimScript(mid);
    assert ScriptBody(tableName, schema, cs) == ScriptStart + mid + ScriptEnd;
  }

  lemma TrimScript(mid: string)
    ensures Trim("\n" + (ScriptStart + mid + ScriptEnd) + "\n") == ScriptStart + mid + ScriptEnd
    ensures StartsWith(ScriptStart + mid + ScriptEnd, ScriptStart)
    ensures EndsWith(ScriptStart + mid + ScriptEnd, ScriptEnd)
  {
    var body := ScriptStart + mid + ScriptEnd;
    assert body[..|ScriptStart|] == ScriptStart;
    assert body[|body| - |ScriptEnd|..] == ScriptEnd;
    assert body[0] == 'I' && body[|body| - 1] == 'D';
    TrimSurroundingNewlines(body);
  }

  lemma TrimSurroundingNewlines(body: string)
    requires |body| > 0 && !IsWhitespace(body[0]) && !IsWhitespace(body[|body| - 1])
    ensures Trim("\n" + body + "\n") == body
  {
    var s := "\n" + body + "\n";
    assert s[0] == '\n' && s[1] == body[0];
    RunEndUnique(s, 0, Whitespace, 1);
    assert TrimStart(s) == body + "\n";
    var r := TrimEnd(body + "\n");
    assert r == (body + "\n")[..|body|] == body;
  }

  // ---------------------------------------------------------------------------
  // the component state

  class TableGenerator {
    var tableName: string
    var schema: string
    var columns: seq<Column>
    var sql: string

    /** The form as first shown: no table name, schema `dbo`, one empty row. */
    constructor()
      ensures tableName == "" && schema == "dbo" && columns == [NewColumn] && sql == ""
    {
      tableName := "";
      schema := "dbo";
      columns := [NewColumn];
      sql := "";
    }

    /** `isValid`. */
    predicate FormValid()
      reads this
    {
      IsValid(tableName, columns)
    }

    /** Typing a table name; the script shown is cleared when the name changes. */
    method SetTableName(name: string)
      modifies this
      ensures tableName == name && schema == old(schema) && columns == old(columns)
      ensures sql == (if name == old(tableName) then old(sql) else "")
    {
      if name != tableName {
        sql := "";
      }
      tableName := name;
    }

    /** Typing a schema; the script shown is cleared when the schema changes. */
    method SetSchema(s: string)
      modifies this
      ensures schema == s && tableName == old(tableName) && columns == old(columns)
      ensures sql == (if s == old(schema) then old(sql) else "")
    {
      if s != schema {
        sql := "";
      }
      schema := s;
    }

    /** `addColumn`: one fresh row at the end; the others are untouched. */
    method AddColumn()
      modifies this
      ensures columns == old(columns) + [NewColumn]
      ensures tableName == old(tableName) && schema == old(schema) && sql == ""
    {
      columns := columns + [NewColumn];
      sql := "";
    }

    /** `removeColumn(index)`: an index outside the list removes nothing. */
    method RemoveColumn(index: int)
      modifies this
      ensures columns == RemoveAt(old(columns), index)
      ensures tableName == old(tableName) && schema == old(schema) && sql == ""
    {
      columns := RemoveAt(columns, index);
      sql := "";
    }

    /** `updateColumn(index, key, value)`: one field of one row. */
    method UpdateColumn(index: nat, f: Field)
      requires index < |columns|
      modifies this
      ensures columns == old(columns)[index := Set(old(columns)[index], f)]
      ensures tableName == old(tableName) && schema == old(schema) && sql == ""
    {
      columns := columns[index := Set(columns[index], f)];
      sql := "";
    }

    /** `generateSql`: nothing without a table name, otherwise the script. */
    method GenerateSql()
      modifies this
      ensures tableName == old(tableName) && schema == old(schema) && columns == old(columns)
      ensures sql == (if tableName == "" then old(sql) else CreateTableSql(tableName, schema, columns))
    {
      sql := NextSql(tableName, schema, columns, sql);
    }
  }
}
