/** The load stage: the column definitions of the `products` table, its creation
    when absent, and the positional append of every row of the cleaned frame. */
module LoadToDb {
  import opened Common
  import opened Text
  import opened Frames

  datatype SqlType = Integer | Varchar

  datatype ColumnDef = ColumnDef(name: string, sqlType: SqlType)

  // ---------------------------------------------------------------------------
  // Column definitions and their DDL text

  /** `id` is an INTEGER column, every other column a VARCHAR one. */
  function ColumnDefFor(name: string): (d: ColumnDef)
    ensures d.name == name
    ensures d.sqlType == Integer <==> name == "id"
  {
    ColumnDef(name, if name == "id" then Integer else Varchar)
  }

  /** One definition per frame column, in the frame's order. */
  function ColumnDefs(columns: seq<string>): (defs: seq<ColumnDef>)
    ensures |defs| == |columns|
    ensures forall i :: 0 <= i < |columns| ==> defs[i] == ColumnDefFor(columns[i])
  {
    if columns == [] then [] else [ColumnDefFor(columns[0])] + ColumnDefs(columns[1..])
  }

  function TypeName(t: SqlType): string
  {
    match t
    case Integer => " INTEGER"
    case Varchar => " VARCHAR"
  }

  /** `<name> INTEGER` or `<name> VARCHAR`. */
  function RenderDef(d: ColumnDef): (s: string)
    ensures StartsWith(s, d.name) && |s| == |d.name| + 8
    ensures EndsWith(s, " INTEGER") <==> d.sqlType == Integer
    ensures EndsWith(s, " VARCHAR") <==> d.sqlType == Varchar
  {
    d.name + TypeName(d.sqlType)
  }

  function RenderDefs(defs: seq<ColumnDef>): (parts: seq<string>)
    ensures |parts| == |defs|
    ensures forall i :: 0 <= i < |defs| ==> parts[i] == RenderDef(defs[i])
  {
    if defs == [] then [] else [RenderDef(defs[0])] + RenderDefs(defs[1..])
  }

  /** `", ".join(parts)`. */
  function Join(parts: seq<string>): (r: string)
    ensures parts == [] ==> r == []
    ensures parts != [] ==> StartsWith(r, parts[0]) && EndsWith(r, parts[|parts| - 1])
  {
    if parts == [] then ""
    else if |parts| == 1 then parts[0]
    else parts[0] + ", " + Join(parts[1..])
  }

  /** The `col_defs` text for the frame's columns. */
  function ColumnDefsSql(columns: seq<string>): (sql: string)
    ensures sql == [] <==> columns == []
    ensures columns != [] ==>
              StartsWith(sql, RenderDef(ColumnDefFor(columns[0]))) &&
              EndsWith(sql, RenderDef(ColumnDefFor(columns[|columns| - 1])))
  {
    Join(RenderDefs(ColumnDefs(columns)))
  }

  // ---------------------------------------------------------------------------
  // Reading the DDL text back

  /** Splits at every `", "`. */
  function SplitDefs(s: string): (parts: seq<string>)
    ensures |parts| >= 1
    decreases |s|
  {
    if s == [] then [[]]
    else if |s| >= 2 && s[0] == ',' && s[1] == ' ' then [[]] + SplitDefs(s[2..])
    else
      var rest := SplitDefs(s[1..]);
      [[s[0]] + rest[0]] + rest[1..]
  }

  /** A definition read back: the name before a trailing type keyword. */
  function ParseDef(s: string): Option<ColumnDef>
  {
    if EndsWith(s, TypeName(Integer)) then Some(ColumnDef(s[..|s| - |TypeName(Integer)|], Integer))
    else if EndsWith(s, TypeName(Varchar)) then Some(ColumnDef(s[..|s| - |TypeName(Varchar)|], Varchar))
    else None
  }

  function ParseDefList(parts: seq<string>): Option<seq<ColumnDef>>
  {
    if parts == [] then Some([])
    else
      var d := ParseDef(parts[0]);
      var ds := ParseDefList(parts[1..]);
      if d.Some? && ds.Some? then Some([d.value] + ds.value) else None
  }

  /** The column definitions a `col_defs` text declares. */
  function ParseColumnDefs(s: string): Option<seq<ColumnDef>>
  {
    ParseDefList(SplitDefs(s))
  }

  lemma RenderParse(d: ColumnDef)
    ensures ParseDef(RenderDef(d)) == Some(d)
  {
    var s := RenderDef(d);
    assert s[..|s| - |TypeName(d.sqlType)|] == d.name;
    assert s[|s| - |TypeName(d.sqlType)|..] == TypeName(d.sqlType);
  }

  /** A comma-free prefix joins the first part. */
  lemma {:induction false} SplitDefsPrefix(p: string, t: string)
    requires ',' !in p
    ensures SplitDefs(p + t) == [p + SplitDefs(t)[0]] + SplitDefs(t)[1..]
    decreases |p|
  {
    if p != [] {
      var s := p + t;
      assert s[1..] == p[1..] + t;
      assert s[0] == p[0] && p[0] in p;
      SplitDefsPrefix(p[1..], t);
      var rest := SplitDefs(s[1..]);
      assert SplitDefs(s) == [[s[0]] + rest[0]] + rest[1..];
      assert [p[0]] + (p[1..] + SplitDefs(t)[0]) == p + SplitDefs(t)[0];
    } else {
      var st := SplitDefs(t);
      assert p + t == t;
      assert p + st[0] == st[0];
      assert [st[0]] + st[1..] == st;
    }
  }

  lemma {:induction false} SplitJoin(parts: seq<string>)
    requires |parts| >= 1
    requires forall i :: 0 <= i < |parts| ==> ',' !in parts[i]
    ensures SplitDefs(Join(parts)) == parts
    decreases |parts|
  {
    if |parts| == 1 {
      SplitDefsPrefix(parts[0], []);
      assert parts[0] + [] == parts[0];
    } else {
      var rest := Join(parts[1..]);
      SplitJoin(parts[1..]);
      assert Join(parts) == parts[0] + (", " + rest);
      SplitDefsPrefix(parts[0], ", " + rest);
      assert (", " + rest)[2..] == rest;
      assert SplitDefs(", " + rest) == [[]] + parts[1..];
      assert parts[0] + [] == parts[0];
    }
  }

  /** Parts that each read back as a definition read back as the list of them. */
  lemma {:induction false} ParseEach(parts: seq<string>, defs: seq<ColumnDef>)
    requires |parts| == |defs|
    requires forall i :: 0 <= i < |parts| ==> ParseDef(parts[i]) == Some(defs[i])
    ensures ParseDefList(parts) == Some(defs)
    decreases |parts|
  {
    if parts != [] {
      ParseEach(parts[1..], defs[1..]);
      assert ParseDef(parts[0]) == Some(defs[0]);
      assert [defs[0]] + defs[1..] == defs;
    }
  }

  /** The `col_defs` text declares exactly the frame's columns, in order, `id` as
      INTEGER and the others as VARCHAR — for any non-empty list of column names
      free of commas. */
  lemma ColumnDefsRoundTrip(columns: seq<string>)
    requires |columns| >= 1
    requires forall i :: 0 <= i < |columns| ==> ',' !in columns[i]
    ensures ParseColumnDefs(ColumnDefsSql(columns)) == Some(ColumnDefs(columns))
  {
    var defs := ColumnDefs(columns);
    var parts := RenderDefs(defs);
    forall i | 0 <= i < |parts|
      ensures ',' !in parts[i]
    {
      assert defs[i].name == columns[i];
      RenderNoComma(defs[i]);
    }
    SplitJoin(parts);
    forall i | 0 <= i < |parts|
      ensures ParseDef(parts[i]) == Some(defs[i])
    {
      RenderParse(defs[i]);
    }
    ParseEach(parts, defs);
  }

  lemma RenderNoComma(d: ColumnDef)
    requires ',' !in d.name
    ensures ',' !in RenderDef(d)
  {
    var k := TypeName(d.sqlType);
    assert forall j :: 0 <= j < |k| ==> k[j] != ',';
  }

  // ---------------------------------------------------------------------------
  // The table and the append

  /** The `products` table: its declared columns and its rows, each row a
      sequence of values in column order. */
  datatype Table = Table(schema: seq<ColumnDef>, rows: seq<seq<Value>>)

  /** A frame row as `SELECT *` hands it over: its cells in column order. */
  function RowValues(row: Row, columns: seq<string>): (v: seq<Value>)
    ensures |v| == |columns|
    ensures forall j :: 0 <= j < |columns| ==> v[j] == Cell(row, columns[j])
  {
    if columns == [] then [] else [Cell(row, columns[0])] + RowValues(row, columns[1..])
  }

  /** Every row of the frame, in order. */
  function FrameRows(rows: seq<Row>, columns: seq<string>): (r: seq<seq<Value>>)
    ensures |r| == |rows|
    ensures forall i :: 0 <= i < |rows| ==> r[i] == RowValues(rows[i], columns)
  {
    if rows == [] then [] else [RowValues(rows[0], columns)] + FrameRows(rows[1..], columns)
  }

  /** The table after `CREATE TABLE IF NOT EXISTS`: an existing table is kept
      whatever the frame's columns; a new one is empty and declares one column per
      frame column, `id` as INTEGER and the rest as VARCHAR. */
  function Created(t: Option<Table>, columns: seq<string>): (c: Table)
    ensures t.Some? ==> c == t.value
    ensures t.None? ==> c.rows == [] && |c.schema| == |columns|
    ensures t.None? ==> forall i :: 0 <= i < |columns| ==>
              c.schema[i].name == columns[i] && (c.schema[i].sqlType == Integer <==> columns[i] == "id")
  {
    if t.Some? then t.value else Table(ColumnDefs(columns), [])
  }

  /** The table after `INSERT INTO products SELECT * FROM df`: the frame's rows
      appended by position, which the database refuses when the widths differ. */
  function Insert(t: Table, f: Frame): (r: Result<Table>)
    ensures r.Ok? <==> |t.schema| == |f.columns|
    ensures r.Err? ==> Kind(r.error) == BinderException
    ensures r.Ok? ==> r.value.schema == t.schema && |r.value.rows| == |t.rows| + |f.rows|
    ensures r.Ok? ==> r.value.rows[..|t.rows|] == t.rows
    ensures r.Ok? ==> forall i :: 0 <= i < |f.rows| ==> r.value.rows[|t.rows| + i] == RowValues(f.rows[i], f.columns)
  {
    if |t.schema| != |f.columns| then Err(ColumnCountMismatch(|t.schema|, |f.columns|))
    else Ok(Table(t.schema, t.rows + FrameRows(f.rows, f.columns)))
  }

  /** `load_to_db` on the store's current table. */
  function Load(t: Option<Table>, f: Frame): (r: Result<Table>)
    ensures t.None? ==> r.Ok?
    ensures r.Ok? ==> |r.value.schema| == |f.columns| && |r.value.rows| == |f.rows| + (if t.Some? then |t.value.rows| else 0)
    ensures r.Err? ==> t.Some? && |t.value.schema| != |f.columns|
  {
    Insert(Created(t, f.columns), f)
  }

  /** The store: the database file, holding the `products` table once created. */
  class Store {
    var products: Option<Table>

    /** A database in which nothing has been loaded yet. */
    constructor()
      ensures products == None
    {
      products := None;
    }

    /** `load_to_db`: create the table if it is absent, then append the frame. The
        creation stands even if the append is refused. */
    method LoadToDb(f: Frame) returns (err: Option<Error>)
      modifies this
      ensures Load(old(products), f).Ok? ==> err == None && products == Some(Load(old(products), f).value)
      ensures Load(old(products), f).Err? ==>
                err == Some(Load(old(products), f).error) && products == Some(Created(old(products), f.columns))
    {
      var table := Created(products, f.columns);
      products := Some(table);
      match Insert(table, f)
      case Ok(t) =>
        products := Some(t);
        err := None;
      case Err(e) =>
        err := Some(e);
    }
  }

  // ---------------------------------------------------------------------------
  // What the stage promises

  /** A first load creates the table from the frame's columns and holds the
      frame's rows. */
  lemma FirstLoadCreates(f: Frame)
    ensures Load(None, f) == Ok(Table(ColumnDefs(f.columns), FrameRows(f.rows, f.columns)))
  {
    assert [] + FrameRows(f.rows, f.columns) == FrameRows(f.rows, f.columns);
  }

  /** A load into an existing table keeps its schema and its rows, and adds the
      frame's rows after them in order; it is refused exactly when the widths
      differ, as a BinderException that leaves the table as it was. */
  lemma LoadAppends(t: Table, f: Frame)
    ensures var r := Load(Some(t), f);
            && (r.Ok? <==> |t.schema| == |f.columns|)
            && (r.Ok? ==> r.value.schema == t.schema && r.value.rows == t.rows + FrameRows(f.rows, f.columns))
            && (r.Ok? ==> |r.value.rows| == |t.rows| + |f.rows| && r.value.rows[..|t.rows|] == t.rows)
            && (r.Err? ==> Kind(r.error) == BinderException && Created(Some(t), f.columns) == t)
  {
    var r := Load(Some(t), f);
    if r.Ok? {
      assert r.value.rows[..|t.rows|] == t.rows;
    }
  }

  /** Loading the same frame twice into a fresh store holds its rows twice. */
  lemma LoadTwiceDoubles(f: Frame)
    ensures var once := Load(None, f);
            && once.Ok?
            && Load(Some(once.value), f).Ok?
            && Load(Some(once.value), f).value.rows == FrameRows(f.rows, f.columns) + FrameRows(f.rows, f.columns)
  {
    assert [] + FrameRows(f.rows, f.columns) == FrameRows(f.rows, f.columns);
  }

  /** Loading a frame without rows leaves the table present and its rows as they
      were; into a fresh store it creates the empty table. */
  lemma LoadEmpty(t: Option<Table>, f: Frame)
    requires f.rows == []
    requires t.Some? ==> |t.value.schema| == |f.columns|
    ensures Load(t, f).Ok?
    ensures Load(t, f).value.rows == (if t.Some? then t.value.rows else [])
    ensures t.None? ==> Load(t, f).value.schema == ColumnDefs(f.columns)
  {
    assert FrameRows(f.rows, f.columns) == [];
    assert Created(t, f.columns).rows + [] == Created(t, f.columns).rows;
  }

  /** The store after two loads of the same frame: the rows twice, in order, and
      the schema of the first load. */
  method LoadTwice(f: Frame) returns (s: Store)
    ensures fresh(s)
    ensures s.products == Some(Table(ColumnDefs(f.columns),
                                     FrameRows(f.rows, f.columns) + FrameRows(f.rows, f.columns)))
  {
    s := new Store();
    var e1 := s.LoadToDb(f);
    LoadTwiceDoubles(f);
    var e2 := s.LoadToDb(f);
  }

  /** The appends test: rows (1, "A") and (2, "B"), loaded twice, read back as the
      four rows in order. */
  lemma AppendsTestCase(f: Frame)
    requires f == Frame(["id", "name"], [map["id" := VInt(1), "name" := VStr("A")],
                                        map["id" := VInt(2), "name" := VStr("B")]])
    ensures var once := Load(None, f);
            once.Ok? && Load(Some(once.value), f).Ok? &&
            Load(Some(once.value), f).value.rows ==
              [[VInt(1), VStr("A")], [VInt(2), VStr("B")], [VInt(1), VStr("A")], [VInt(2), VStr("B")]]
  {
    var rows := FrameRows(f.rows, f.columns);
    assert f.columns[0] == "id" && f.columns[1] == "name";
    assert RowValues(f.rows[0], f.columns) == [VInt(1), VStr("A")];
    assert RowValues(f.rows[1], f.columns) == [VInt(2), VStr("B")];
    assert rows == [[VInt(1), VStr("A")], [VInt(2), VStr("B")]];
    LoadTwiceDoubles(f);
  }
}
