/** The transform stage: schema normalisation with the `title` fallback, the
    required-column check, derivation of the GBP price and its flags, the final
    column order, and the choice of reader from the input file's suffix. */
module Transformer {
  import opened Common
  import opened Text
  import opened Frames
  import RateClient

  /** Columns every input must have once the `title` fallback has been applied. */
  const Required: set<string> := {"id", "name", "price", "category"}

  /** `Required` in Python's string order. */
  const RequiredSorted: seq<string> := ["category", "id", "name", "price"]

  /** The columns that lead every cleaned frame, in this order. */
  const Leading: seq<string> :=
    ["id", "name", "category", "currency", "price", "rate_to_gbp", "price_gbp", "is_premium", "price_flag"]

  const LeadingSet: set<string> :=
    {"id", "name", "category", "currency", "price", "rate_to_gbp", "price_gbp", "is_premium", "price_flag"}

  /** The price threshold, in GBP, used when the caller gives none. */
  const DefaultThreshold: real := 100.0

  // ---------------------------------------------------------------------------
  // Schema normalisation and the required-column check

  /** A frame without `name` but with `title` gets a `name` column, appended
      last, holding each row's title; any other frame is left as it is. */
  function WithName(f: Frame): (g: Frame)
    ensures |g.rows| == |f.rows|
    ensures forall c :: c in g.columns <==> c in f.columns || (c == "name" && "title" in f.columns)
  {
    if "name" !in f.columns && "title" in f.columns then Frame(f.columns + ["name"], TitleAsName(f.rows))
    else f
  }

  /** Every row with `name` set to its `title`. */
  function TitleAsName(rows: seq<Row>): (r: seq<Row>)
    ensures |r| == |rows|
    ensures forall i :: 0 <= i < |rows| ==> r[i] == rows[i]["name" := Cell(rows[i], "title")]
  {
    if rows == [] then []
    else [rows[0]["name" := Cell(rows[0], "title")]] + TitleAsName(rows[1..])
  }

  /** The required columns absent from `columns`, in sorted order. */
  function MissingRequired(columns: seq<string>): (r: seq<string>)
    ensures forall c :: c in r <==> c in Required && c !in columns
    ensures StrictlySorted(r)
  {
    RequiredSortedIsSorted();
    WithoutKeepsSorted(RequiredSorted, set c | c in columns);
    Without(RequiredSorted, set c | c in columns)
  }

  lemma RequiredSortedIsSorted()
    ensures StrictlySorted(RequiredSorted)
  {
    assert StrLess("category", "id");
    assert StrLess("category", "name");
    assert StrLess("category", "price");
    assert StrLess("id", "name");
    assert StrLess("id", "price");
    assert StrLess("name", "price");
  }

  /** Filtering a strictly sorted sequence leaves it strictly sorted. */
  lemma {:induction false} WithoutKeepsSorted(s: seq<string>, drop: set<string>)
    requires StrictlySorted(s)
    ensures StrictlySorted(Without(s, drop))
  {
    if s != [] {
      WithoutKeepsSorted(s[1..], drop);
      var rest := Without(s[1..], drop);
      forall j | 0 <= j < |rest|
        ensures StrLess(s[0], rest[j])
      {
        assert rest[j] in s[1..];
        var k :| 0 <= k < |s[1..]| && s[1..][k] == rest[j];
        assert s[k + 1] == rest[j];
      }
    }
  }

  /** Required column `c` is absent from `columns` and `title` cannot stand in for it. */
  predicate LacksAfterFallback(columns: seq<string>, c: string)
  {
    c in Required && c !in columns && !(c == "name" && "title" in columns)
  }

  // ---------------------------------------------------------------------------
  // Per-row derivation

  /** Non-strict cast of `id` to an integer: integers survive, anything else is null. */
  function CastId(v: Value): (r: Value)
    ensures r.VInt? <==> v.VInt?
    ensures r == v || r == VNull
  {
    match v
    case VInt(_) => v
    case _ => VNull
  }

  /** Non-strict cast of `price` to a float. */
  function CastPrice(v: Value): (r: Value)
    ensures r.VReal? <==> AsNumber(v).Some?
    ensures r.VReal? ==> r.r == AsNumber(v).value
    ensures !r.VReal? ==> r == VNull
  {
    match AsNumber(v)
    case Some(p) => VReal(p)
    case None => VNull
  }

  /** `price * rate`; null when the price is not a number. */
  function ToGbp(price: Value, rate: real): (r: Value)
    ensures r.VReal? <==> AsNumber(price).Some?
    ensures r.VReal? ==> r.r == AsNumber(price).value * rate
    ensures !r.VReal? ==> r == VNull
    ensures rate == 1.0 ==> r == CastPrice(price)
  {
    match AsNumber(price)
    case Some(p) => VReal(p * rate)
    case None => VNull
  }

  /** `price_gbp > threshold`; a null price gives a null comparison. */
  function OverThreshold(gbp: Value, threshold: real): (r: Value)
    ensures r.VBool? <==> gbp.VReal?
    ensures r.VBool? ==> (r.b <==> gbp.r > threshold)
    ensures !r.VBool? ==> r == VNull
  {
    match gbp
    case VReal(g) => VBool(g > threshold)
    case _ => VNull
  }

  /** `when(cond).then("high").otherwise("normal")`: a false or null condition
      falls through to "normal". */
  function Flag(cond: Value): (r: Value)
    ensures r == VStr("high") || r == VStr("normal")
    ensures r == VStr("high") <==> cond == VBool(true)
  {
    VStr(if cond == VBool(true) then "high" else "normal")
  }

  /** Title-cased text; a cell that is not text becomes null. */
  function TitleCategory(v: Value): (r: Value)
    ensures r.VStr? <==> v.VStr?
    ensures !r.VStr? ==> r == VNull
    ensures v.VStr? ==> r == VStr(TitleCase(v.s))
    ensures r.VStr? ==> |r.s| == |v.s| && TitleCase(r.s) == r.s
  {
    match v
    case VStr(s) => TitleCaseIdempotent(s); VStr(TitleCase(s))
    case _ => VNull
  }

  /** Column `c` of a cleaned row, after both `with_columns` steps and the
      `select`: the derived columns are computed from the row's own, uncast
      values, and every other column passes through. */
  function DerivedCell(row: Row, rate: real, threshold: real, c: string): (v: Value)
    ensures c !in LeadingSet || c == "name" ==> v == Cell(row, c)
    ensures c == "currency" ==> v == VStr("USD")
    ensures c == "rate_to_gbp" ==> v == VReal(rate)
    ensures c == "price_flag" ==> v == VStr("high") || v == VStr("normal")
  {
    var gbp := ToGbp(Cell(row, "price"), rate);
    if c == "id" then CastId(Cell(row, "id"))
    else if c == "price" then CastPrice(Cell(row, "price"))
    else if c == "price_gbp" then gbp
    else if c == "category" then TitleCategory(Cell(row, "category"))
    else if c == "currency" then VStr("USD")
    else if c == "rate_to_gbp" then VReal(rate)
    else if c == "is_premium" then OverThreshold(gbp, threshold)
    else if c == "price_flag" then Flag(OverThreshold(gbp, threshold))
    else Cell(row, c)
  }

  /** A cleaned row: the selected columns, each derived from the raw row. */
  function CleanRow(row: Row, rate: real, threshold: real, columns: seq<string>): (r: Row)
    ensures r.Keys == set c | c in columns
  {
    map c | c in columns :: DerivedCell(row, rate, threshold, c)
  }

  /** Every row cleaned, in order. */
  function CleanRows(rows: seq<Row>, rate: real, threshold: real, columns: seq<string>): (r: seq<Row>)
    ensures |r| == |rows|
    ensures forall i :: 0 <= i < |rows| ==> r[i] == CleanRow(rows[i], rate, threshold, columns)
  {
    if rows == [] then []
    else [CleanRow(rows[0], rate, threshold, columns)] + CleanRows(rows[1..], rate, threshold, columns)
  }

  /** The `select`: the leading columns, then every other column in its order. */
  function OutputColumns(columns: seq<string>): (r: seq<string>)
    ensures |Leading| <= |r| && r[..|Leading|] == Leading
    ensures forall c :: c in r <==> c in LeadingSet || c in columns
    ensures IsSubseq(r[|Leading|..], columns)
  {
    WithoutOrder(columns, LeadingSet);
    assert (Leading + Without(columns, LeadingSet))[|Leading|..] == Without(columns, LeadingSet);
    Leading + Without(columns, LeadingSet)
  }

  /** `_transform_frame`. */
  function TransformFrame(f: Frame, rate: real, threshold: real): (r: Result<Frame>)
    ensures r.Err? ==> r.error.MissingColumns? && r.error.missing != []
    ensures r.Ok? ==> |r.value.rows| == |f.rows| && |Leading| <= |r.value.columns|
    ensures r.Ok? ==> r.value.columns[..|Leading|] == Leading
  {
    var g := WithName(f);
    var missing := MissingRequired(g.columns);
    if missing != [] then Err(MissingColumns(missing))
    else
      var columns := OutputColumns(g.columns);
      Ok(Frame(columns, CleanRows(g.rows, rate, threshold, columns)))
  }

  // ---------------------------------------------------------------------------
  // What the transformation promises

  /** The outcome of the required-column check, in terms of the normalised columns. */
  lemma TransformErr(f: Frame, rate: real, threshold: real)
    ensures var missing := MissingRequired(WithName(f).columns);
            && (TransformFrame(f, rate, threshold).Err? <==> missing != [])
            && (missing != [] ==> TransformFrame(f, rate, threshold) == Err(MissingColumns(missing)))
  {
  }

  /** The columns the check reports are those `title` cannot make up for. */
  lemma MissingIsLacking(f: Frame)
    ensures var missing := MissingRequired(WithName(f).columns);
            && (forall c :: c in missing <==> LacksAfterFallback(f.columns, c))
            && (missing != [] <==> exists c :: LacksAfterFallback(f.columns, c))
  {
    var missing := MissingRequired(WithName(f).columns);
    if missing != [] {
      assert LacksAfterFallback(f.columns, missing[0]);
    }
  }

  /** The transformation fails exactly when a required column is missing after
      the fallback, and the error lists those columns, sorted, each name once. */
  lemma TransformFailsOnMissing(f: Frame, rate: real, threshold: real)
    ensures var r := TransformFrame(f, rate, threshold);
            && (r.Err? <==> exists c :: LacksAfterFallback(f.columns, c))
            && (r.Err? ==>
                  && r.error.MissingColumns?
                  && Kind(r.error) == ValueError
                  && StrictlySorted(r.error.missing)
                  && (forall c :: c in r.error.missing <==> LacksAfterFallback(f.columns, c)))
  {
    var missing := MissingRequired(WithName(f).columns);
    TransformErr(f, rate, threshold);
    MissingIsLacking(f);
    if missing != [] {
      assert TransformFrame(f, rate, threshold) == Err(MissingColumns(missing));
      assert Kind(MissingColumns(missing)) == ValueError;
    }
  }

  /** What a cleaned row holds, stated from the raw row's `price`, `category` and
      `id` cells. */
  ghost predicate CleanedFrom(price: Value, category: Value, id: Value, out: Row, rate: real, threshold: real)
  {
    && Cell(out, "currency") == VStr("USD")
    && Cell(out, "rate_to_gbp") == VReal(rate)
    && (match AsNumber(price)
        case Some(p) =>
          && Cell(out, "price") == VReal(p)
          && Cell(out, "price_gbp") == VReal(p * rate)
          && Cell(out, "is_premium") == VBool(p * rate > threshold)
        case None =>
          && Cell(out, "price") == VNull
          && Cell(out, "price_gbp") == VNull
          && Cell(out, "is_premium") == VNull)
    && (Cell(out, "price_flag") == VStr("high") <==> Cell(out, "is_premium") == VBool(true))
    && (Cell(out, "price_flag") == VStr("high") || Cell(out, "price_flag") == VStr("normal"))
    && (category.VStr? ==> Cell(out, "category") == VStr(TitleCase(category.s)))
    && (id.VInt? ==> Cell(out, "id") == id)
  }

  lemma CleanRowCell(row: Row, rate: real, threshold: real, columns: seq<string>, c: string)
    requires c in columns
    ensures Cell(CleanRow(row, rate, threshold, columns), c) == DerivedCell(row, rate, threshold, c)
  {
  }

  lemma CleanRowCleaned(row: Row, rate: real, threshold: real, columns: seq<string>)
    requires forall c :: c in Leading ==> c in columns
    ensures CleanedFrom(Cell(row, "price"), Cell(row, "category"), Cell(row, "id"),
                        CleanRow(row, rate, threshold, columns), rate, threshold)
  {
    var out := CleanRow(row, rate, threshold, columns);
    assert Leading[0] == "id" && Leading[2] == "category" && Leading[3] == "currency" && Leading[4] == "price";
    assert Leading[5] == "rate_to_gbp" && Leading[6] == "price_gbp" && Leading[7] == "is_premium" && Leading[8] == "price_flag";
    CleanRowCell(row, rate, threshold, columns, "id");
    CleanRowCell(row, rate, threshold, columns, "category");
    CleanRowCell(row, rate, threshold, columns, "currency");
    CleanRowCell(row, rate, threshold, columns, "price");
    CleanRowCell(row, rate, threshold, columns, "rate_to_gbp");
    CleanRowCell(row, rate, threshold, columns, "price_gbp");
    CleanRowCell(row, rate, threshold, columns, "is_premium");
    CleanRowCell(row, rate, threshold, columns, "price_flag");
  }

  /** The columns and row count of a successful transformation. */
  lemma TransformOkColumns(f: Frame, rate: real, threshold: real)
    requires TransformFrame(f, rate, threshold).Ok?
    ensures var out := TransformFrame(f, rate, threshold).value;
            out.columns == OutputColumns(WithName(f).columns) && |out.rows| == |f.rows|
  {
  }

  /** Row `i` of a successful transformation is the cleaned normalised row `i`. */
  lemma TransformOkRow(f: Frame, rate: real, threshold: real, i: int)
    requires TransformFrame(f, rate, threshold).Ok? && 0 <= i < |f.rows|
    ensures var out := TransformFrame(f, rate, threshold).value;
            i < |out.rows| && out.rows[i] == CleanRow(WithName(f).rows[i], rate, threshold, out.columns)
  {
  }

  /** The `select` keeps every leading column and every input column. */
  lemma OutputColumnsHas(columns: seq<string>, c: string)
    requires c in LeadingSet || c in columns
    ensures c in OutputColumns(columns)
  {
    if c !in LeadingSet {
      assert c in Without(columns, LeadingSet);
    } else {
      assert c in Leading;
    }
  }

  /** Cell `c` of row `i` of a successful transformation, for a selected column. */
  lemma TransformCell(f: Frame, rate: real, threshold: real, i: int, c: string)
    requires TransformFrame(f, rate, threshold).Ok? && 0 <= i < |f.rows|
    requires c in LeadingSet || c in WithName(f).columns
    ensures var out := TransformFrame(f, rate, threshold).value;
            i < |out.rows| && Cell(out.rows[i], c) == DerivedCell(WithName(f).rows[i], rate, threshold, c)
  {
    var out := TransformFrame(f, rate, threshold).value;
    TransformOkColumns(f, rate, threshold);
    TransformOkRow(f, rate, threshold, i);
    OutputColumnsHas(WithName(f).columns, c);
    CleanRowCell(WithName(f).rows[i], rate, threshold, out.columns, c);
  }

  /** Cells other than `name` are the same before and after the `title` fallback. */
  lemma WithNameCell(f: Frame, i: int, c: string)
    requires 0 <= i < |f.rows| && c != "name"
    ensures Cell(WithName(f).rows[i], c) == Cell(f.rows[i], c)
  {
  }

  /** Without `name` but with `title`, the normalised rows carry the title as `name`. */
  lemma WithNameTitleCell(f: Frame, i: int)
    requires "name" !in f.columns && "title" in f.columns
    requires 0 <= i < |f.rows|
    ensures Cell(WithName(f).rows[i], "name") == Cell(f.rows[i], "title")
  {
  }

  /** The row count is kept and every row gets its derived columns. */
  lemma TransformDerivesRows(f: Frame, rate: real, threshold: real)
    ensures var r := TransformFrame(f, rate, threshold);
            r.Ok? ==>
              && |r.value.rows| == |f.rows|
              && forall i :: 0 <= i < |f.rows| ==>
                   CleanedFrom(Cell(f.rows[i], "price"), Cell(f.rows[i], "category"), Cell(f.rows[i], "id"),
                               r.value.rows[i], rate, threshold)
  {
    var r := TransformFrame(f, rate, threshold);
    if r.Ok? {
      TransformOkColumns(f, rate, threshold);
      var g := WithName(f);
      forall i | 0 <= i < |f.rows|
        ensures CleanedFrom(Cell(f.rows[i], "price"), Cell(f.rows[i], "category"), Cell(f.rows[i], "id"),
                            r.value.rows[i], rate, threshold)
      {
        TransformOkRow(f, rate, threshold, i);
        CleanRowCleaned(g.rows[i], rate, threshold, r.value.columns);
        WithNameCell(f, i, "price");
        WithNameCell(f, i, "category");
        WithNameCell(f, i, "id");
      }
    }
  }

  /** A present `name` column is kept as it is, row by row. */
  lemma TransformKeepsName(f: Frame, rate: real, threshold: real)
    requires "name" in f.columns
    ensures var r := TransformFrame(f, rate, threshold);
            r.Ok? ==> forall i :: 0 <= i < |f.rows| ==> Cell(r.value.rows[i], "name") == Cell(f.rows[i], "name")
  {
    var r := TransformFrame(f, rate, threshold);
    if r.Ok? {
      forall i | 0 <= i < |f.rows|
        ensures Cell(r.value.rows[i], "name") == Cell(f.rows[i], "name")
      {
        TransformCell(f, rate, threshold, i, "name");
      }
    }
  }

  /** Without `name` but with `title`, the cleaned `name` is the raw title row by
      row (`title` itself, not a leading column, passes through as well). */
  lemma TransformNameFromTitle(f: Frame, rate: real, threshold: real)
    requires "name" !in f.columns && "title" in f.columns
    ensures var r := TransformFrame(f, rate, threshold);
            r.Ok? ==> forall i :: 0 <= i < |f.rows| ==> Cell(r.value.rows[i], "name") == Cell(f.rows[i], "title")
  {
    var r := TransformFrame(f, rate, threshold);
    if r.Ok? {
      var g := WithName(f);
      forall i | 0 <= i < |f.rows|
        ensures Cell(r.value.rows[i], "name") == Cell(f.rows[i], "title")
      {
        TransformCell(f, rate, threshold, i, "name");
        WithNameTitleCell(f, i);
      }
    }
  }

  /** The cleaned columns are the nine leading ones followed by the other input
      columns in their order: nothing is dropped and, for an input without
      repeated names, nothing is repeated. */
  lemma TransformColumns(f: Frame, rate: real, threshold: real)
    ensures var r := TransformFrame(f, rate, threshold);
            r.Ok? ==>
              && r.value.columns == Leading + Without(f.columns, LeadingSet)
              && IsSubseq(r.value.columns[|Leading|..], f.columns)
              && (forall c :: c in f.columns ==> c in r.value.columns)
              && (Distinct(f.columns) ==> Distinct(r.value.columns))
  {
    var r := TransformFrame(f, rate, threshold);
    if r.Ok? {
      TransformOkColumns(f, rate, threshold);
      if WithName(f) != f {
        WithoutAppendDropped(f.columns, "name", LeadingSet);
      }
      WithoutOrder(f.columns, LeadingSet);
      assert r.value.columns[|Leading|..] == Without(f.columns, LeadingSet);
      forall c | c in f.columns
        ensures c in r.value.columns
      {
        OutputColumnsHas(f.columns, c);
      }
      if Distinct(f.columns) {
        WithoutDistinct(f.columns, LeadingSet);
        LeadingThenOthersDistinct(Without(f.columns, LeadingSet));
      }
    }
  }

  /** Every cleaned row has exactly the cleaned columns. */
  lemma TransformRowKeys(f: Frame, rate: real, threshold: real)
    ensures var r := TransformFrame(f, rate, threshold);
            r.Ok? ==> forall i :: 0 <= i < |r.value.rows| ==> r.value.rows[i].Keys == set c | c in r.value.columns
  {
    var r := TransformFrame(f, rate, threshold);
    if r.Ok? {
      TransformOkColumns(f, rate, threshold);
      forall i | 0 <= i < |r.value.rows|
        ensures r.value.rows[i].Keys == set c | c in r.value.columns
      {
        TransformOkRow(f, rate, threshold, i);
      }
    }
  }

  /** The values of the columns that are not derived pass through untouched. */
  lemma TransformPassesThrough(f: Frame, rate: real, threshold: real)
    ensures var r := TransformFrame(f, rate, threshold);
            r.Ok? ==>
              forall i, c :: 0 <= i < |f.rows| && c in f.columns && c !in LeadingSet ==>
                Cell(r.value.rows[i], c) == Cell(f.rows[i], c)
  {
    var r := TransformFrame(f, rate, threshold);
    if r.Ok? {
      var g := WithName(f);
      forall i, c | 0 <= i < |f.rows| && c in f.columns && c !in LeadingSet
        ensures Cell(r.value.rows[i], c) == Cell(f.rows[i], c)
      {
        TransformCell(f, rate, threshold, i, c);
        WithNameCell(f, i, c);
      }
    }
  }

  lemma LeadingThenOthersDistinct(others: seq<string>)
    requires Distinct(others)
    requires forall c :: c in others ==> c !in LeadingSet
    ensures Distinct(Leading + others)
  {
    var s := Leading + others;
    forall i, j | 0 <= i < j < |s|
      ensures s[i] != s[j]
    {
      if j >= |Leading| && i < |Leading| {
        assert s[i] in LeadingSet;
        assert s[j] in others;
      }
    }
  }

  /** The cases of the unit test, for any integer price and category text in a
      one-row frame, at rate 1 and threshold 100: `price_gbp` is the price, the
      flag is "high" only strictly above 100, the category is title-cased. */
  lemma TransformOneRow(price: int, category: string)
    ensures var row := map["id" := VInt(1), "name" := VStr("Test Product"),
                           "price" := VInt(price), "category" := VStr(category)];
            var r := TransformFrame(Frame(["id", "name", "price", "category"], [row]), 1.0, DefaultThreshold);
            && r.Ok? && |r.value.rows| == 1
            && Cell(r.value.rows[0], "price_gbp") == VReal(price as real)
            && Cell(r.value.rows[0], "price_flag") == VStr(if price > 100 then "high" else "normal")
            && Cell(r.value.rows[0], "category") == VStr(TitleCase(category))
  {
    var row := map["id" := VInt(1), "name" := VStr("Test Product"),
                   "price" := VInt(price), "category" := VStr(category)];
    var f := Frame(["id", "name", "price", "category"], [row]);
    assert forall c :: c in RequiredSorted ==> c in f.columns;
    assert WithName(f) == f;
    assert TransformFrame(f, 1.0, DefaultThreshold).Ok?;
    TransformDerivesRows(f, 1.0, DefaultThreshold);
    assert Cell(row, "price") == VInt(price) && Cell(row, "category") == VStr(category);
  }

  /** The four test cases, each checked on `price_gbp`, `price_flag` and
      `category`: 120 is "high", 80 and the boundary 100 are "normal", and an empty
      category stays empty. */
  lemma TransformTestCases()
    ensures var r := TransformFrame(Frame(["id", "name", "price", "category"],
              [map["id" := VInt(1), "name" := VStr("Test Product"), "price" := VInt(120), "category" := VStr("electronics")]]),
              1.0, DefaultThreshold);
            && r.Ok? && Cell(r.value.rows[0], "price_gbp") == VReal(120.0)
            && Cell(r.value.rows[0], "price_flag") == VStr("high") && Cell(r.value.rows[0], "category") == VStr("Electronics")
    ensures var r := TransformFrame(Frame(["id", "name", "price", "category"],
              [map["id" := VInt(1), "name" := VStr("Test Product"), "price" := VInt(80), "category" := VStr("clothing")]]),
              1.0, DefaultThreshold);
            && r.Ok? && Cell(r.value.rows[0], "price_gbp") == VReal(80.0)
            && Cell(r.value.rows[0], "price_flag") == VStr("normal") && Cell(r.value.rows[0], "category") == VStr("Clothing")
    ensures var r := TransformFrame(Frame(["id", "name", "price", "category"],
              [map["id" := VInt(1), "name" := VStr("Test Product"), "price" := VInt(100), "category" := VStr("books")]]),
              1.0, DefaultThreshold);
            && r.Ok? && Cell(r.value.rows[0], "price_gbp") == VReal(100.0)
            && Cell(r.value.rows[0], "price_flag") == VStr("normal") && Cell(r.value.rows[0], "category") == VStr("Books")
    ensures var r := TransformFrame(Frame(["id", "name", "price", "category"],
              [map["id" := VInt(1), "name" := VStr("Test Product"), "price" := VInt(150), "category" := VStr("")]]),
              1.0, DefaultThreshold);
            && r.Ok? && Cell(r.value.rows[0], "price_gbp") == VReal(150.0)
            && Cell(r.value.rows[0], "price_flag") == VStr("high") && Cell(r.value.rows[0], "category") == VStr("")
  {
    TransformOneRow(120, "electronics");
    TransformOneRow(80, "clothing");
    TransformOneRow(100, "books");
    TransformOneRow(150, "");
    TitleCaseExamples("electronics", "clothing", "books");
  }

  // ---------------------------------------------------------------------------
  // transform_products: rate resolution, reader dispatch, result

  datatype InputFormat = NdjsonInput | ParquetInput

  /** The cleaned frame, written as Parquet to `path`. */
  datatype Cleaned = Cleaned(path: string, frame: Frame)

  /** Index of the last `c` in `s`, or -1. */
  function LastIndexOf(s: string, c: char): (k: int)
    ensures -1 <= k < |s|
    ensures k >= 0 ==> s[k] == c
    ensures forall j :: k < j < |s| ==> s[j] != c
  {
    if s == [] then -1
    else if s[|s| - 1] == c then |s| - 1
    else LastIndexOf(s[..|s| - 1], c)
  }

  /** `Path(p).suffix`: from the last dot of the final component, provided that
      dot is neither the component's first nor its last character. */
  function Suffix(path: string): (ext: string)
    ensures ext == [] || (|ext| >= 2 && ext[0] == '.' && '.' !in ext[1..] && '/' !in ext)
    ensures |ext| <= |path| && ext == path[|path| - |ext|..]
  {
    var name := path[LastIndexOf(path, '/') + 1..];
    var i := LastIndexOf(name, '.');
    if 0 < i < |name| - 1 then name[i..] else ""
  }

  /** The reader for a lower-cased suffix. */
  function ReaderFor(ext: string): (r: Option<InputFormat>)
    ensures r == Some(NdjsonInput) <==> ext == ".json" || ext == ".ndjson"
    ensures r == Some(ParquetInput) <==> ext == ".parquet"
  {
    if ext == ".json" || ext == ".ndjson" then Some(NdjsonInput)
    else if ext == ".parquet" then Some(ParquetInput)
    else None
  }

  /** The rate in use: the override when one is given, else a lookup with the
      app id from the environment. */
  function ResolveRate(rateOverride: Option<real>, envAppId: Option<string>, http: string -> HttpResult): (r: Result<real>)
    ensures rateOverride.Some? ==> r == Ok(rateOverride.value)
    ensures rateOverride.None? && r.Ok? ==> r.value > 0.0
    ensures rateOverride.None? ==> (r == Err(MissingCredential) <==> RateClient.ResolveAppId(None, envAppId).None?)
  {
    if rateOverride.Some? then Ok(rateOverride.value)
    else RateClient.GetUsdToGbpRate(None, envAppId, http)
  }

  /** `transform_products`: `read` is the foreign reader for a format and path. */
  function TransformProducts(rawPath: string, outPath: string, threshold: real, rateOverride: Option<real>,
                             envAppId: Option<string>, http: string -> HttpResult,
                             read: (InputFormat, string) -> Result<Frame>): (r: Result<Cleaned>)
    ensures r.Ok? ==> r.value.path == outPath
    ensures r.Ok? ==> ResolveRate(rateOverride, envAppId, http).Ok? && ReaderFor(ToLower(Suffix(rawPath))).Some?
  {
    match ResolveRate(rateOverride, envAppId, http)
    case Err(e) => Err(e)
    case Ok(rate) =>
      var ext := ToLower(Suffix(rawPath));
      match ReaderFor(ext)
      case None => Err(UnsupportedInputFormat(ext))
      case Some(format) => TransformInput(read(format, rawPath), rate, threshold, outPath)
  }

  /** Transforming what a reader produced; on success the result names `outPath`. */
  function TransformInput(input: Result<Frame>, rate: real, threshold: real, outPath: string): (r: Result<Cleaned>)
    ensures input.Err? ==> r == Err(input.error)
    ensures r.Ok? <==> input.Ok? && TransformFrame(input.value, rate, threshold).Ok?
    ensures r.Ok? ==> r.value == Cleaned(outPath, TransformFrame(input.value, rate, threshold).value)
  {
    match input
    case Err(e) => Err(e)
    case Ok(df) =>
      match TransformFrame(df, rate, threshold)
      case Err(e) => Err(e)
      case Ok(out) => Ok(Cleaned(outPath, out))
  }

  /** A failed rate lookup comes first, whatever the suffix; then the reader
      follows the lower-cased suffix and an unknown suffix is a ValueError naming
      it; success returns `outPath` with the transformed frame. */
  lemma TransformProductsDispatch(rawPath: string, outPath: string, threshold: real, rateOverride: Option<real>,
                                  envAppId: Option<string>, http: string -> HttpResult,
                                  read: (InputFormat, string) -> Result<Frame>)
    ensures var r := TransformProducts(rawPath, outPath, threshold, rateOverride, envAppId, http, read);
            var rate := ResolveRate(rateOverride, envAppId, http);
            var ext := ToLower(Suffix(rawPath));
            && (rate.Err? ==> r == Err(rate.error))
            && (rate.Ok? && ReaderFor(ext).None? ==> r == Err(UnsupportedInputFormat(ext)) && Kind(r.error) == ValueError)
            && (rate.Ok? && (ext == ".json" || ext == ".ndjson") ==>
                  r == TransformInput(read(NdjsonInput, rawPath), rate.value, threshold, outPath))
            && (rate.Ok? && ext == ".parquet" ==>
                  r == TransformInput(read(ParquetInput, rawPath), rate.value, threshold, outPath))
            && (r.Ok? ==> r.value.path == outPath)
  {
    var rate := ResolveRate(rateOverride, envAppId, http);
    var ext := ToLower(Suffix(rawPath));
    if rate.Ok? && ReaderFor(ext).None? {
      assert Kind(UnsupportedInputFormat(ext)) == ValueError;
    }
  }

  /** A supplied rate skips the lookup: neither the credential nor the service
      can change the outcome, and a rate of any sign is used as given. */
  lemma OverrideSkipsLookup(rawPath: string, outPath: string, threshold: real, rate: real,
                            env1: Option<string>, http1: string -> HttpResult,
                            env2: Option<string>, http2: string -> HttpResult,
                            read: (InputFormat, string) -> Result<Frame>)
    ensures TransformProducts(rawPath, outPath, threshold, Some(rate), env1, http1, read) ==
            TransformProducts(rawPath, outPath, threshold, Some(rate), env2, http2, read)
    ensures ResolveRate(Some(rate), env1, http1) == Ok(rate)
  {
  }

  /** An index holding `c` with no `c` after it is the last index of `c`. */
  lemma LastIndexOfAt(s: string, c: char, k: int)
    requires 0 <= k < |s| && s[k] == c
    requires forall j :: k < j < |s| ==> s[j] != c
    ensures LastIndexOf(s, c) == k
  {
  }

  lemma LastIndexOfAbsent(s: string, c: char)
    requires forall j :: 0 <= j < |s| ==> s[j] != c
    ensures LastIndexOf(s, c) == -1
  {
  }

  /** In `stem.ext` there is no slash, and no dot after the stem. */
  lemma FileNameChars(stem: string, ext: string)
    requires '/' !in stem && '/' !in ext && '.' !in ext
    ensures var n := stem + "." + ext;
            forall j :: 0 <= j < |n| ==> n[j] != '/' && (|stem| < j ==> n[j] != '.')
  {
    var n := stem + "." + ext;
    forall j | 0 <= j < |n|
      ensures n[j] != '/'
      ensures |stem| < j ==> n[j] != '.'
    {
      if j < |stem| {
        assert n[j] == stem[j] && stem[j] in stem;
      } else if j > |stem| {
        assert n[j] == ext[j - |stem| - 1] && ext[j - |stem| - 1] in ext;
      }
    }
  }

  /** The suffix of a file name is the part from its last dot on. */
  lemma SuffixOfName(stem: string, ext: string)
    requires stem != [] && ext != []
    requires '/' !in stem && '/' !in ext && '.' !in ext
    ensures Suffix(stem + "." + ext) == "." + ext
  {
    var p := stem + "." + ext;
    FileNameChars(stem, ext);
    LastIndexOfAbsent(p, '/');
    var name := p[LastIndexOf(p, '/') + 1..];
    assert name == p;
    LastIndexOfAt(name, '.', |stem|);
    assert name[|stem|..] == "." + ext;
  }

  /** A directory part in front of a slash-free name does not change its suffix. */
  lemma SuffixAfterDir(dir: string, name: string)
    requires '/' !in name
    ensures Suffix(dir + "/" + name) == Suffix(name)
  {
    var p := dir + "/" + name;
    forall j | |dir| < j < |p|
      ensures p[j] != '/'
    {
      assert p[j] == name[j - |dir| - 1];
    }
    LastIndexOfAt(p, '/', |dir|);
    assert p[|dir| + 1..] == name;
    LastIndexOfAbsent(name, '/');
    assert name[0..] == name;
  }

  /** The suffix of a path is taken from its final component alone: a directory
      part, dots in it included, does not change it. */
  lemma SuffixOfPath(dir: string, stem: string, ext: string)
    requires stem != [] && ext != []
    requires '/' !in stem && '/' !in ext && '.' !in ext
    ensures Suffix(dir + "/" + stem + "." + ext) == "." + ext
  {
    var n := stem + "." + ext;
    assert dir + "/" + stem + "." + ext == dir + "/" + n;
    FileNameChars(stem, ext);
    SuffixAfterDir(dir, n);
    SuffixOfName(stem, ext);
  }

  /** A name whose only dot is its first character, such as `.json`, has no suffix,
      so it selects no reader. */
  lemma DotfileHasNoSuffix(ext: string)
    requires '/' !in ext && '.' !in ext
    ensures Suffix("." + ext) == ""
    ensures ReaderFor(ToLower(Suffix("." + ext))).None?
  {
    var p := "." + ext;
    assert forall j :: 0 < j < |p| ==> p[j] == ext[j - 1];
    LastIndexOfAbsent(p, '/');
    assert p[0..] == p;
    LastIndexOfAt(p, '.', 0);
    assert ToLower("") == "";
  }

  /** The suffix is matched whatever its case, with or without a directory part:
      `raw.JSON`, `data/raw.Json` and `/tmp/x/raw.json` are all read as NDJSON. */
  lemma JsonSuffixAnyCase(dir: string, stem: string, ext: string)
    requires stem != [] && '/' !in stem
    requires ToLower(ext) == "json"
    ensures ReaderFor(ToLower(Suffix(stem + "." + ext))) == Some(NdjsonInput)
    ensures ReaderFor(ToLower(Suffix(dir + "/" + stem + "." + ext))) == Some(NdjsonInput)
  {
    LowerJsonLetters(ext);
    SuffixOfName(stem, ext);
    SuffixOfPath(dir, stem, ext);
    LowerDotJson(ext);
  }

  /** A word that lower-cases to `json` holds neither a dot nor a slash. */
  lemma LowerJsonLetters(ext: string)
    requires ToLower(ext) == "json"
    ensures ext != [] && '.' !in ext && '/' !in ext
  {
    forall j | 0 <= j < |ext|
      ensures ext[j] != '.' && ext[j] != '/'
    {
      assert LowerChar(ext[j]) == "json"[j];
    }
  }

  lemma LowerDotJson(ext: string)
    requires ToLower(ext) == "json"
    ensures ToLower("." + ext) == ".json"
  {
    var l := ToLower("." + ext);
    forall j | 0 <= j < |l|
      ensures l[j] == ".json"[j]
    {
      if j > 0 {
        assert ("." + ext)[j] == ext[j - 1];
        assert ToLower(ext)[j - 1] == LowerChar(ext[j - 1]);
      }
    }
  }
}
