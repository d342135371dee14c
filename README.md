# Product ETL pipeline — verified model of the decision logic

The pipeline has three stages that run one after the other:

- **Fetch** (`etl/fetch_data.py`) downloads a list of product records from a URL, or reads it from a local JSON file. It checks that the payload is a list and writes it as Parquet or NDJSON.
- **Transform** (`etl/transform_data.py`) resolves a USD→GBP rate, from an override or from Open Exchange Rates. It picks a reader from the raw file's suffix and cleans the frame:
  - `title` stands in for a missing `name`;
  - the required columns `id`, `name`, `price` and `category` are checked;
  - the GBP price, the premium flag and the title-cased category are derived;
  - the columns are reordered.
- **Load** (`etl/load_to_db.py`) creates the DuckDB `products` table when it is absent, with `id INTEGER` and every other column `VARCHAR`. It then appends every row of the cleaned frame.

This project models that logic in Dafny and proves what the code promises.

The outside world enters the model as parameters:

| Parameter | Stands for |
|---|---|
| `http: string -> HttpResult` | the answer to a GET: for the rate lookup, after its session's retries; for the fetch stage, a single attempt, since `requests.get` there has no retry (`etl/fetch_data.py:12`) |
| `files: string -> LocalFile` | opening and decoding a local file |
| `read: (InputFormat, string) -> Result<Frame>` | the Parquet and NDJSON readers |
| `envAppId` | the `OXR_APP_ID` environment variable |

Because of this, "no request is made" is stated as "the outcome does not depend on `http`".

A frame is an ordered list of column names plus a sequence of rows. Each row maps column names to values, and an absent key reads as null. Prices and rates are `real`. Every exception the model covers is an `Error` value. `Common.Kind` maps each one to its Python class: ValueError, KeyError, RuntimeError, RequestException, FileNotFoundError, OSError (an `open()` refused for a directory or for lack of permission), or DuckDB's BinderException. The readers' own failures are whatever errors the `read` parameter returns; they propagate unchanged.

Modules:

| Module | Contents |
|---|---|
| `Common` | results, errors, JSON values, HTTP outcomes |
| `Text` | prefix tests, ASCII case mapping, title case, `str.replace`, string order |
| `Frames` | values, rows, frames, column filtering |
| `RateClient` | `get_usd_to_gbp_rate` |
| `Transformer` | `_transform_frame`, `transform_products` |
| `FetchData` | `fetch_products` |
| `LoadToDb` | `load_to_db`, including the `Store` class that holds the table |

Two points of the code that the model keeps as they are:

- `raise_for_status` raises only for statuses 400 to 599, so a 1xx or 3xx answer with a parseable body is accepted (`Common.IsErrorStatus`).
- `transform_products` resolves the rate before it looks at the input's suffix (`etl/transform_data.py:115-118`). A missing credential is therefore reported even for a file with an unsupported suffix (`Transformer.TransformProductsDispatch`).

## Model

| member | source | states |
|---|---|---|
| Common.Received | etl/fetch_data.py:12-14 | A GET yields its JSON body exactly when it was answered with a status outside 400..599 and a parseable body. A transport failure gives a RequestException carrying its reason, an error status gives a RequestException carrying the status, and otherwise the error is a bad-JSON ValueError. |
| RateClient.RateUrl | etl/transform_data.py:45 | The URL is the `latest.json` endpoint with `?app_id=`, then the app id unaltered, then `&symbols=GBP`. |
| RateClient.RateUrlInjective | etl/transform_data.py:45 | Different app ids give different URLs, so the URL identifies the credential in use. |
| RateClient.ToFloat | etl/transform_data.py:51 | The model's `float()` on a decoded JSON value converts numbers and booleans: a number is kept, and `true`/`false` become 1.0/0.0. Other values, numeric text included, give no value here. |
| RateClient.GbpField | etl/transform_data.py:51 | `float(data["rates"]["GBP"])` yields a value only when `data` is an object with an object `rates` holding `GBP`, and the value is that field's conversion. A numeric `GBP` is always read; a text `GBP` is not. |
| RateClient.ResolveAppId | etl/transform_data.py:42-43 | `app_id or env`: an explicit non-empty id wins. The environment's id is used otherwise. No id is available exactly when both are missing or empty, and an id in use is never empty. |
| RateClient.GetUsdToGbpRate | etl/transform_data.py:37-57 | A returned rate is strictly positive. The result is the missing-credential error exactly when no app id is available. |
| RateClient.NoRequestWithoutAppId | etl/transform_data.py:42-44 | Without an app id the lookup fails with a RuntimeError, whatever the rate service would answer, so no request is needed. |
| RateClient.OnlyRateUrlRequested | etl/transform_data.py:45-47 | The outcome depends only on the answer for `latest.json?app_id=<id>&symbols=GBP` with the id in use. |
| RateClient.RateOutcome | etl/transform_data.py:47-57 | With an app id, every outcome: a failed GET propagates unchanged; a payload without a convertible `rates.GBP` is a KeyError; a rate ≤ 0 is a ValueError carrying the rate; the lookup succeeds exactly when the rate is positive and then returns it. |
| RateClient.RateFromWellFormedPayload | etl/transform_data.py:49-57 | The answer `{"rates": {"GBP": x}}` with x > 0 yields x. |
| Frames.Without | etl/transform_data.py:98 | The comprehension that keeps the columns outside a set: it holds exactly the elements of the input outside the set, is never longer, and is empty when everything is dropped. |
| Frames.WithoutOrder | etl/transform_data.py:98 | The kept columns are a subsequence of the input: they keep the input's order. |
| Frames.WithoutDistinct | etl/transform_data.py:98 | Filtering a list without repeats leaves none. |
| Frames.WithoutAppendDropped | etl/transform_data.py:67-69 | A `name` appended by the fallback is filtered out again like any other leading column. |
| Transformer.WithName | etl/transform_data.py:66-69 | The fallback keeps the row count. Afterwards the frame has a column exactly when it had it before, or the column is `name` and the frame had `title`. |
| Transformer.TitleAsName | etl/transform_data.py:67-69 | Every row gets `name` set to its own `title` cell, in order. |
| Transformer.MissingRequired | etl/transform_data.py:64-72 | `sorted(REQUIRED_COLS - set(columns))`: it holds exactly the required columns that are absent, in strictly increasing code-point order. |
| Transformer.RequiredSortedIsSorted | etl/transform_data.py:22 | `category < id < name < price` in Python's string order. |
| Transformer.WithoutKeepsSorted | etl/transform_data.py:72 | Removing elements from a strictly sorted list keeps it strictly sorted. |
| Transformer.MissingIsLacking | etl/transform_data.py:64-71 | The columns reported after the fallback are exactly the required ones that `title` cannot make up for, and there are some exactly when one such column exists. |
| Transformer.TransformFailsOnMissing | etl/transform_data.py:64-72 | The transform fails exactly when a required column is missing after the fallback. The failure is a ValueError listing exactly those columns, sorted, each name once. |
| Transformer.CastId | etl/transform_data.py:76 | The non-strict cast keeps an integer id and turns anything else into null. It never fails. |
| Transformer.CastPrice | etl/transform_data.py:77 | A numeric price becomes that number as a float, and anything else becomes null. |
| Transformer.ToGbp | etl/transform_data.py:78 | `price * rate` is a number exactly when the price is numeric, and then it is the price times the rate. A null propagates. At rate 1 it equals the cast price. |
| Transformer.OverThreshold | etl/transform_data.py:82-83 | The comparison is a boolean exactly when the GBP price is a number, and it is true exactly when that price is strictly above the threshold. Otherwise it is null. |
| Transformer.Flag | etl/transform_data.py:86 | `when/then/otherwise` gives "high" exactly for a true condition and "normal" for false or null. Nothing else is produced. |
| Transformer.TitleCategory | etl/transform_data.py:79 | A text category becomes its title-cased text, with `TitleCase`'s per-character rule. The result has the same length and is a fixed point of title-casing. Anything else becomes null. |
| Transformer.DerivedCell | etl/transform_data.py:75-99 | `name` and every column outside the fixed nine pass through unchanged. `currency` is "USD", `rate_to_gbp` is the rate, and `price_flag` is "high" or "normal". |
| Transformer.OutputColumns | etl/transform_data.py:88-99 | The nine fixed columns come first, in order, followed by a subsequence of the input columns that keeps the input's order. A column is selected exactly when it is one of the nine or an input column. |
| Transformer.TransformFrame | etl/transform_data.py:59-100 | The model's only failure is the missing-columns error with a non-empty list. A success keeps the row count and starts with the nine fixed columns. |
| Transformer.CleanRow | etl/transform_data.py:88-99 | A cleaned row holds exactly the selected columns. |
| Transformer.CleanRows | etl/transform_data.py:74-87 | The expressions apply to every row, in order, and the row count is kept. |
| Transformer.CleanRowCleaned | etl/transform_data.py:75-87 | A cleaned row holds `currency = "USD"` and `rate_to_gbp = rate`. For a numeric price p, it holds `price = p`, `price_gbp = p·rate` and `is_premium = (p·rate > threshold)`; a non-numeric price leaves all three null. `price_flag` is "high" exactly when `is_premium` is true and "normal" otherwise. A text category is title-cased and an integer id is kept. |
| Transformer.TransformDerivesRows | etl/transform_data.py:75-87 | For every row of a successful transform, the derived cells stand in the relation above to the raw row's `price`, `category` and `id`, and the row count is unchanged. |
| Transformer.TransformKeepsName | etl/transform_data.py:89-90 | A present `name` column passes through unchanged, row by row. |
| Transformer.TransformNameFromTitle | etl/transform_data.py:66-69 | Without `name` but with `title`, the output `name` equals `title` row by row. |
| Transformer.TransformColumns | etl/transform_data.py:88-99 | The output columns are the nine fixed ones followed by every other input column in its original order (a subsequence of the input). No input column is dropped, and an input without repeats gives an output without repeats. |
| Transformer.TransformRowKeys | etl/transform_data.py:88-99 | Every output row has exactly the output columns. |
| Transformer.TransformPassesThrough | etl/transform_data.py:98 | Every input column outside the fixed nine keeps its value in every row. This includes `title`. |
| Transformer.LeadingThenOthersDistinct | etl/transform_data.py:89-98 | The fixed nine followed by a repeat-free list of other columns has no repeats. |
| Transformer.TransformOneRow | tests/unit/test_transform_data.py:34-49 | For a one-row frame with any integer price and any category, at rate 1 and threshold 100: `price_gbp` is the price, the flag is "high" exactly when the price is above 100, and the category is title-cased. |
| Transformer.TransformTestCases | tests/unit/test_transform_data.py:8-49 | All twelve expectations of the four cases: `price_gbp` 120/"high"/"Electronics", 80/"normal"/"Clothing", 100/"normal"/"Books" at the boundary, and 150/"high" with the empty category kept empty. |
| Transformer.LastIndexOf | etl/transform_data.py:118 | The index found holds the character and none follows it, or it is -1. |
| Transformer.Suffix | etl/transform_data.py:118 | `Path.suffix`: either empty, or a dot followed by at least one character, with no other dot and no slash, at the end of the path. |
| Transformer.ReaderFor | etl/transform_data.py:120-125 | `.json` and `.ndjson` select the NDJSON reader, `.parquet` selects the Parquet reader, and nothing else selects either. |
| Transformer.TransformInput | etl/transform_data.py:128-133 | A reader failure propagates. Otherwise the stage succeeds exactly when the transform does, and then returns `out_path` with the transformed frame. |
| Transformer.ResolveRate | etl/transform_data.py:115-116 | An override is used as given. Without one, a resolved rate is strictly positive, and the failure is the missing-credential error exactly when the environment has no non-empty app id. |
| Transformer.TransformProducts | etl/transform_data.py:102-133 | A success always returns `out_path`. It happens only after a resolved rate and a suffix that selects a reader. |
| Transformer.TransformProductsDispatch | etl/transform_data.py:115-133 | A failed rate lookup comes first. Then the lower-cased suffix picks the reader; an unknown suffix is a ValueError naming it. Success always returns `out_path`. |
| Transformer.OverrideSkipsLookup | etl/transform_data.py:115-116 | With an override rate, neither the credential nor the rate service affects the outcome, and the override is used as given. |
| Transformer.SuffixOfName | etl/transform_data.py:118 | The suffix of `stem.ext` is `.ext`. |
| Transformer.SuffixAfterDir | etl/transform_data.py:118 | A directory part in front of a slash-free name, dots included, does not change the suffix. |
| Transformer.SuffixOfPath | etl/transform_data.py:118 | The suffix of `dir/stem.ext` is `.ext` for any directory part, e.g. `/opt/airflow/data/products_raw.parquet` or the test's `tmp_path / "raw.json"`. |
| Transformer.DotfileHasNoSuffix | etl/transform_data.py:118-125 | A name like `.json` has an empty suffix and so selects no reader. |
| Transformer.JsonSuffixAnyCase | etl/transform_data.py:118-121 | `raw.JSON`, or `json` in any capitalisation, selects the NDJSON reader, with or without a directory part in front. |
| Text.ToLower | etl/transform_data.py:118 | `.lower()` keeps the length, lower-cases each character in place, and leaves no upper-case letter. |
| Text.TitleCase | etl/transform_data.py:79 | The title-cased text has the input's length. Each character is upper-cased where a word starts (the first character, or one after a non-alphanumeric) and lower-cased elsewhere. |
| Text.TitleCaseIdempotent | etl/transform_data.py:79 | Title-casing twice is the same as once. |
| Text.TitleCaseExamples | tests/unit/test_transform_data.py:10-16 | "electronics", "clothing" and "books" become "Electronics", "Clothing" and "Books", and "" stays "". |
| Text.ReplaceAll | etl/fetch_data.py:23 | `str.replace` never lengthens a string when the replacement is no longer than the pattern, and never shortens it when the replacement is no shorter. What it leaves behind is stated by ReplaceAllAbsent, NoParquetLeft and ReplaceParquetSuffix. |
| Text.ReplaceAllAbsent | etl/fetch_data.py:23 | `str.replace` leaves a string without an occurrence unchanged. |
| Text.JsonThenNoParquet | etl/fetch_data.py:23 | No `.parquet` can start inside an inserted `.json`. |
| Text.CharThenNoParquet | etl/fetch_data.py:23 | A character the rewrite keeps cannot start a `.parquet` in the result. |
| Text.NoParquetLeft | etl/fetch_data.py:23 | After `.replace('.parquet', '.json')` no `.parquet` is left. |
| Text.ReplaceParquetSuffix | etl/fetch_data.py:23 | A path ending in `.parquet` ends in `.json` afterwards, and the part before it is rewritten on its own. |
| Text.StrictlySortedDistinct | etl/transform_data.py:72 | A strictly sorted list names each column once. |
| FetchData.IsUrl | etl/fetch_data.py:11 | A source is a URL exactly when its first four characters are `h`, `t`, `t`, `p`. The test is case-sensitive, so `HTTP://…` names a local file. ReadSource and SourceDispatch show what the choice decides. |
| FetchData.LoadLocal | etl/fetch_data.py:15-17 | A local file yields its JSON exactly when it can be opened and parses. A missing file is a FileNotFoundError naming the path, a directory or an unreadable file is an OSError naming it, and text that is not JSON is a ValueError. |
| FetchData.ReadSource | etl/fetch_data.py:11-17 | A decoded payload from a URL is the body of an answer without an error status, and one from a path is the file's parsed contents. A request failure can come only from a URL, and a file failure only from a path. |
| FetchData.OutputFor | etl/fetch_data.py:22-27 | Only "json" and "parquet" are accepted; anything else is a ValueError naming the format. Parquet is written at `out_path` as given. The NDJSON path has no `.parquet` left in it. |
| FetchData.FetchProducts | etl/fetch_data.py:9-27 | A result is Parquet exactly when the format is "parquet". Every failure the model covers is a RequestException, a FileNotFoundError, another OSError or a ValueError. |
| FetchData.SourceDispatch | etl/fetch_data.py:11-17 | A source starting with "http" depends only on the GET and not on the filesystem. Any other source depends only on the file and not on the network. |
| FetchData.NotAListRejected | etl/fetch_data.py:18-19 | A payload that is not a list is rejected with the not-a-list ValueError for every format, so the list check comes before the format check. |
| FetchData.SourceFailurePropagates | etl/fetch_data.py:11-17 | A failure reading the source is the stage's failure, unchanged and not retried. |
| FetchData.ListWritten | etl/fetch_data.py:20-27 | A list is kept in full and in order. "parquet" writes it at `out_path`, "json" writes it at the rewritten path, and any other format is a ValueError. |
| FetchData.JsonPathRewritten | etl/fetch_data.py:22-23 | The NDJSON path has no `.parquet` in it, and `x.parquet` becomes `x'.json`, where x' is x rewritten. |
| FetchData.LocalFileCases | tests/unit/test_fetchdata.py:9-47 | A local file holding the JSON string "notalist" gives a ValueError. A file holding `[]` is written, empty, as Parquet at `out_path`. |
| FetchData.NetworkCases | tests/unit/test_fetchdata.py:49-80 | A transport failure for `http://mock` gives a RequestException. A list answer with the format "unsupported" gives a ValueError. |
| LoadToDb.ColumnDefFor | etl/load_to_db.py:19 | `id` is declared INTEGER and every other name VARCHAR. |
| LoadToDb.ColumnDefs | etl/load_to_db.py:18-20 | There is one definition per column, in column order. |
| LoadToDb.RenderDef | etl/load_to_db.py:19 | A definition is the column name followed by eight characters. It ends in ` INTEGER` exactly for an INTEGER column and in ` VARCHAR` exactly for a VARCHAR one. RenderParse reads it back. |
| LoadToDb.Join | etl/load_to_db.py:18 | `", ".join` of no parts is empty. Otherwise the text starts with the first part and ends with the last. SplitJoin splits it back into the parts. |
| LoadToDb.ColumnDefsSql | etl/load_to_db.py:18-20 | The `col_defs` text is empty exactly when the frame has no columns. Otherwise it starts with the first column's definition and ends with the last column's. ColumnDefsRoundTrip reads the whole text back. |
| LoadToDb.ColumnDefsRoundTrip | etl/load_to_db.py:18-20 | Splitting the `col_defs` text at ", " and reading each `<name> INTEGER` / `<name> VARCHAR` back gives exactly the column definitions, in order, for any non-empty list of comma-free names. |
| LoadToDb.SplitJoin | etl/load_to_db.py:18 | Splitting `", ".join(parts)` at ", " gives `parts` back when no part contains a comma. |
| LoadToDb.RenderParse | etl/load_to_db.py:19 | Each rendered definition reads back as itself. |
| LoadToDb.RowValues | etl/load_to_db.py:24 | `SELECT *` hands a row over as its cells in column order. |
| LoadToDb.FrameRows | etl/load_to_db.py:22-24 | Every row of the frame is handed over, in order. |
| LoadToDb.Created | etl/load_to_db.py:21 | `CREATE TABLE IF NOT EXISTS`: an existing table is kept whatever the frame's columns. A new table is empty and declares one column per frame column, with the same names, `id` as INTEGER and the rest as VARCHAR. |
| LoadToDb.Insert | etl/load_to_db.py:24 | Leaving value casts aside, the positional append succeeds exactly when the widths agree, and otherwise it is a BinderException. On success the schema and the old rows are kept, followed by each frame row's cells in column order. |
| LoadToDb.Load | etl/load_to_db.py:21-24 | For columns DuckDB accepts unquoted, a first load never fails. A successful load leaves a table as wide as the frame, holding its rows after any earlier ones. A failure means an existing table of another width. |
| LoadToDb.Store.constructor | etl/load_to_db.py:16 | A fresh database holds no `products` table. |
| LoadToDb.Store.LoadToDb | etl/load_to_db.py:11-26 | The table is created if absent and then the rows are appended. When the widths differ the append is refused with the error returned, and the creation still stands. |
| LoadToDb.FirstLoadCreates | etl/load_to_db.py:21-24 | A first load creates `products` from the frame's columns and holds exactly the frame's rows. |
| LoadToDb.LoadAppends | etl/load_to_db.py:21-24 | Loading into an existing table keeps its schema and its rows as a prefix, and adds the frame's rows after them in order. Leaving value casts aside, it is refused exactly when the widths differ, as a BinderException. |
| LoadToDb.LoadTwiceDoubles | etl/load_to_db.py:24 | Loading the same frame twice into a fresh store holds its rows twice. |
| LoadToDb.LoadEmpty | tests/unit/test_load_to_db.py:43-55 | A frame without rows leaves the table present and its rows unchanged, and into a fresh store it creates the empty table. |
| LoadToDb.LoadTwice | tests/unit/test_load_to_db.py:9-27 | Two loads through the `Store` object leave the first load's schema and the rows twice. |
| LoadToDb.AppendsTestCase | tests/unit/test_load_to_db.py:9-27 | Rows (1, "A") and (2, "B"), loaded twice, read back as the four rows in order. |

## Left out

- **Retries and timeouts.** The GET is a parameter. For the rate lookup it includes the session's retries. The fetch stage's bare `requests.get` (`etl/fetch_data.py:12`) makes a single attempt. The retry session at `etl/transform_data.py:24-35` and the timeouts are not modelled.
- **Serialisation.** Polars' Parquet and NDJSON reading and writing, `to_pandas` and DuckDB's `register` are left out. The readers are a parameter. The fetch stage's result is the records with the path and format to write them in. A record that is not a JSON object, or records that polars cannot put into one frame, are not examined.
- **Directory creation.** `os.makedirs` (`etl/fetch_data.py:21`) and `Path.parent.mkdir` (`etl/transform_data.py:113`) are left out. So is `os.makedirs("")` failing for an output path without a directory part, which happens before the format check.
- **Logging, environment defaults and entry points.** These are left out: logging; the `DATA_DIR`, `RAW_DEFAULT`, `OUT_DEFAULT`, `PARQUET_PATH` and `DB_PATH` defaults; the `main` functions. The `OXR_APP_ID` variable is a parameter.
- **Orchestration and serving.** `airflow/dags/etl_pipeline.py` and `api/main.py` are not part of this model.
- **Floating point.** Prices, rates and products are exact `real`s, so IEEE rounding in `price * rate` and NaN are not modelled.
- **Column types.** Cells are typed one by one, while polars types whole columns. A text `price` column makes polars raise in `price * rate`, but the model gives null there.
- Transformer.CastId: polars' non-strict cast to Int64 also converts floats, booleans and numeric text. The model keeps integers and makes everything else null.
- Transformer.CastPrice: polars also parses numeric text and converts booleans. The model converts integers and reals and makes everything else null.
- Transformer.TitleCategory: a non-text category is cast to text by polars. The model makes it null.
- Text.TitleCase: this is ASCII word capitalisation. Polars' Unicode-aware word boundaries and case mappings are not modelled.
- Text.ToLower: this maps ASCII letters only. Python's `str.lower` maps all of Unicode.
- RateClient.ToFloat: Python's `float()` also parses numeric text such as `"0.79"`, `" 1e-3 "` or `"inf"`. The model converts only JSON numbers and booleans, because Python's float-literal grammar is not modelled.
- RateClient.GbpField: a `GBP` field holding numeric text gives no value in the model, though line 51 would convert it. This follows from `ToFloat` above.
- Transformer.ToGbp: a text `price` column makes polars raise a type error at `price * rate` (`etl/transform_data.py:78`). The model gives null there, because it types cells one by one rather than whole columns.
- Transformer.TransformFrame: its failures are only the missing-columns ValueError. Polars' own errors, such as the type error for a text `price` column at `etl/transform_data.py:78`, are not modelled.
- FetchData.FetchProducts: `pl.DataFrame(products)` (`etl/fetch_data.py:20`) can raise polars' own errors for records it cannot put into one frame. The model accepts every list, so these failures are not in its list of failure kinds.
- LoadToDb.Insert: DuckDB also refuses a value it cannot cast to the column's type, such as text into `id INTEGER`. The model checks only the width.
- LoadToDb.Load: column names are spliced into the SQL unquoted (`etl/load_to_db.py:19-21`). A name such as `product name` or `order`, or a frame without columns, makes the `CREATE` fail, while in the model a first load always succeeds.
- LoadToDb.LoadAppends: refusals for values DuckDB cannot cast are not modelled. Only a width mismatch is.
- RateClient.GetUsdToGbpRate: Python's `float()` also parses numeric strings such as `"0.79"`. The model (`ToFloat`) accepts only JSON numbers and booleans, so a string rate is reported as a missing field.
- Transformer.Suffix: `Path` normalisation, such as trailing slashes and `.`/`..` components, is not modelled. A final component of `..` is not special-cased.
- LoadToDb.ColumnDefsRoundTrip: this holds for comma-free names only. Column names are spliced into the SQL unquoted, so a name with a comma or a space would change the statement, and the model does not parse SQL.
- LoadToDb.FirstLoadCreates: a frame without columns makes `CREATE TABLE IF NOT EXISTS products ()`, which DuckDB rejects. The model creates a table with no columns instead.
- LoadToDb.Store.LoadToDb: DuckDB's casts of the appended values to INTEGER and VARCHAR, and their failures, are not modelled. Rows are stored positionally, as the frame hands them over.
