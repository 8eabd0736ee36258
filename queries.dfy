/** The SQL text the worker builds from the header fields: the column list,
    the CREATE TABLE statement and the COPY statement. The statements are only
    ever built here, never read; the parser below is the inverse against which
    their shape is proved. */
module Queries {
  import opened Wrappers
  import opened JsStrings
  import Header

  /** The one column type: every column is `text`. */
  const ColumnType := " text"
  /** The table every job writes to: fixed, whatever name the job asks for. */
  const FixedTable := "TEST2"
  const CreateHead := "CREATE TABLE IF NOT EXISTS "
  const CopyHead := "COPY "
  const CopyTail := " FROM stdin WITH (format csv, HEADER true)"
  /** "CREATE TABLE IF NOT EXISTS TEST2 (" */
  const CreateTablePrefix := CreateHead + FixedTable + " ("

  /** `headerFields.map((field) => `${field} text`)`. */
  function ColumnEntries(fields: seq<string>): (entries: seq<string>)
    ensures |entries| == |fields|
    ensures forall k :: 0 <= k < |fields| ==> entries[k] == fields[k] + ColumnType
  {
    seq(|fields|, k requires 0 <= k < |fields| => fields[k] + ColumnType)
  }

  /** The column list: the entries joined by ", ". Reading it back gives the
      fields, in order, as long as there is at least one and none holds a
      comma. */
  function ColumnList(fields: seq<string>): (list: string)
    ensures |fields| >= 1 && (forall k :: 0 <= k < |fields| ==> ',' !in fields[k]) ==>
              ParseColumnList(list) == Some(fields)
  {
    ColumnListParses(fields);
    Join(ColumnEntries(fields), ", ")
  }

  /** `CREATE TABLE IF NOT EXISTS TEST2 (<column list>)`: it names TEST2 and
      declares exactly the given fields, in order, each as a text column. */
  function CreateTableQuery(fields: seq<string>): (stmt: string)
    ensures |fields| >= 1 && (forall k :: 0 <= k < |fields| ==> ',' !in fields[k]) ==>
              ParseCreateTable(stmt) == Some(("TEST2", fields))
  {
    var list := ColumnList(fields);
    CreateTableParses(list);
    CreateTablePrefix + list + ")"
  }

  /** `COPY TEST2 FROM stdin WITH (format csv, HEADER true)`: it loads TEST2
      and depends on nothing. */
  function CopyQuery(): (stmt: string)
    ensures ParseCopy(stmt) == Some("TEST2")
  {
    var stmt := CopyHead + FixedTable + CopyTail;
    assert stmt[..|CopyHead|] == CopyHead;
    assert stmt[|stmt| - |CopyTail|..] == CopyTail;
    assert stmt[|CopyHead|..|stmt| - |CopyTail|] == FixedTable;
    stmt
  }

  /** The statements one job issues: the COPY is issued only after the
      CREATE TABLE query has resolved. */
  datatype Statements = Statements(createTable: string, copy: string)

  /** What `downloadAndSave(fileUrl, tableName)` sends to the database once it
      holds the first chunk of the file: the header is read with the default
      comma, and the table is TEST2 whatever `tableName` is. */
  function DownloadStatements(chunk: string, tableName: string): (st: Statements)
    ensures ParseCreateTable(st.createTable) == Some(("TEST2", Header.GetFields(chunk)))
    ensures ParseCopy(st.copy) == Some("TEST2")
  {
    var fields := Header.GetFields(chunk);
    Statements(CreateTableQuery(fields), CopyQuery())
  }

  // ---------------------------------------------------------------------------
  // The inverse: reading the statements back

  /** Every piece but the first starts with the space that followed a comma;
      the result drops that space. */
  function Unindent(pieces: seq<string>): Option<seq<string>>
    requires |pieces| >= 1
  {
    if forall k :: 1 <= k < |pieces| ==> pieces[k] != [] && pieces[k][0] == ' ' then
      Some([pieces[0]] + seq(|pieces| - 1, k requires 0 <= k < |pieces| - 1 && pieces[k + 1] != [] => pieces[k + 1][1..]))
    else
      None
  }

  predicate HasColumnType(entry: string) {
    |entry| >= |ColumnType| && entry[|entry| - |ColumnType|..] == ColumnType
  }

  /** Each entry must end with the column type; the result drops it. */
  function StripColumnTypes(entries: seq<string>): Option<seq<string>> {
    if forall k :: 0 <= k < |entries| ==> HasColumnType(entries[k]) then
      Some(seq(|entries|, k requires 0 <= k < |entries| && HasColumnType(entries[k]) => entries[k][..|entries[k]| - |ColumnType|]))
    else
      None
  }

  /** Reads a column list back into field names. */
  function ParseColumnList(list: string): Option<seq<string>> {
    match Unindent(Split(list, ','))
    case None => None
    case Some(entries) => StripColumnTypes(entries)
  }

  /** Reads `CREATE TABLE IF NOT EXISTS <name> (<column list>)` back into the
      table name and the field names. */
  function ParseCreateTable(stmt: string): Option<(string, seq<string>)> {
    if CreateHead <= stmt && |stmt| > |CreateHead| && stmt[|stmt| - 1] == ')' then
      var rest := stmt[|CreateHead|..|stmt| - 1];
      var open := FirstIndex(rest, '(');
      if 1 <= open < |rest| && rest[open - 1] == ' ' then
        match ParseColumnList(rest[open + 1..])
        case None => None
        case Some(fields) => Some((rest[..open - 1], fields))
      else
        None
    else
      None
  }

  /** Reads `COPY <name> FROM stdin WITH (format csv, HEADER true)` back into
      the table name. */
  function ParseCopy(stmt: string): Option<string> {
    if |stmt| >= |CopyHead| + |CopyTail| && stmt[..|CopyHead|] == CopyHead && stmt[|stmt| - |CopyTail|..] == CopyTail then
      Some(stmt[|CopyHead|..|stmt| - |CopyTail|])
    else
      None
  }

  // ---------------------------------------------------------------------------
  // Round trips

  /** Every entry but the first, prefixed by the space that follows the comma. */
  function Indent(entries: seq<string>): (r: seq<string>)
    requires |entries| >= 1
    ensures |r| == |entries| && r[0] == entries[0]
    ensures forall k :: 1 <= k < |entries| ==> r[k] == " " + entries[k]
  {
    [entries[0]] + seq(|entries| - 1, k requires 0 <= k < |entries| - 1 => " " + entries[k + 1])
  }

  /** Putting text in front of the first part puts it in front of the join. */
  lemma JoinPrependFirst(pre: string, parts: seq<string>, sep: string)
    requires |parts| >= 1
    ensures Join([pre + parts[0]] + parts[1..], sep) == pre + Join(parts, sep)
  {
    var moved := [pre + parts[0]] + parts[1..];
    assert moved[1..] == parts[1..];
  }

  /** Joining with ", " is joining with "," after indenting all parts but the first. */
  lemma {:induction false} JoinCommaSpace(entries: seq<string>)
    requires |entries| >= 1
    ensures Join(entries, ", ") == Join(Indent(entries), ",")
    decreases |entries|
  {
    if |entries| > 1 {
      var rest := entries[1..];
      JoinCommaSpace(rest);
      var indented := Indent(entries);
      assert indented[1..] == [" " + rest[0]] + Indent(rest)[1..];
      JoinPrependFirst(" ", Indent(rest), ",");
      assert Join(entries, ", ") == entries[0] + ", " + Join(rest, ", ");
      assert Join(indented, ",") == entries[0] + "," + Join(indented[1..], ",");
    }
  }

  /** Splitting the column list on commas gives the indented entries. */
  lemma SplitColumnList(fields: seq<string>)
    requires |fields| >= 1
    requires forall k :: 0 <= k < |fields| ==> ',' !in fields[k]
    ensures Split(Join(ColumnEntries(fields), ", "), ',') == Indent(ColumnEntries(fields))
  {
    var entries := ColumnEntries(fields);
    var indented := Indent(entries);
    JoinCommaSpace(entries);
    forall k | 0 <= k < |indented|
      ensures ',' !in indented[k]
    {
      assert entries[k] == fields[k] + ColumnType;
      if k > 0 {
        assert indented[k] == " " + entries[k];
      }
    }
    SplitJoin(indented, ',');
  }

  lemma UnindentIndent(entries: seq<string>)
    requires |entries| >= 1
    ensures Unindent(Indent(entries)) == Some(entries)
  {
    var indented := Indent(entries);
    var unindented := [indented[0]] + seq(|indented| - 1, k requires 0 <= k < |indented| - 1 && indented[k + 1] != [] => indented[k + 1][1..]);
    assert unindented == entries;
  }

  lemma StripColumnEntries(fields: seq<string>)
    ensures StripColumnTypes(ColumnEntries(fields)) == Some(fields)
  {
    var entries := ColumnEntries(fields);
    forall k | 0 <= k < |entries|
      ensures HasColumnType(entries[k]) && entries[k][..|entries[k]| - |ColumnType|] == fields[k]
    {
      assert entries[k] == fields[k] + ColumnType;
    }
    var stripped := seq(|entries|, k requires 0 <= k < |entries| && HasColumnType(entries[k]) => entries[k][..|entries[k]| - |ColumnType|]);
    assert stripped == fields;
  }

  /** The entries joined by ", " read back as the fields, as long as there
      is at least one and none holds a comma. */
  lemma ColumnListParses(fields: seq<string>)
    ensures |fields| >= 1 && (forall k :: 0 <= k < |fields| ==> ',' !in fields[k]) ==>
              ParseColumnList(Join(ColumnEntries(fields), ", ")) == Some(fields)
  {
    if |fields| >= 1 && forall k :: 0 <= k < |fields| ==> ',' !in fields[k] {
      SplitColumnList(fields);
      UnindentIndent(ColumnEntries(fields));
      StripColumnEntries(fields);
    }
  }

  /** A column list that reads back as some fields, put between the CREATE
      TABLE prefix and a closing parenthesis, reads back as table TEST2 with
      those fields. */
  lemma CreateTableParses(list: string)
    ensures ParseColumnList(list).Some? ==>
              ParseCreateTable(CreateTablePrefix + list + ")") == Some((FixedTable, ParseColumnList(list).value))
  {
    var stmt := CreateTablePrefix + list + ")";
    assert stmt == CreateHead + (FixedTable + " (" + list) + ")";
    var rest := stmt[|CreateHead|..|stmt| - 1];
    assert rest == FixedTable + " (" + list;
    FirstIndexUnique(rest, '(', |FixedTable| + 1);
    assert rest[|FixedTable| + 2..] == list;
    assert rest[..|FixedTable|] == FixedTable;
  }
}
