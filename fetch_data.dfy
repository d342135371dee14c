/** The fetch stage: read the product list from a URL or a local JSON file,
    check that it is a list, and choose the raw file's format and path. */
module FetchData {
  import opened Common
  import opened Text

  /** What opening and decoding a local file yields. */
  datatype LocalFile =
    | NoSuchFile
    | Unopenable                         // a directory, or no permission to read
    | FileContents(json: Option<Json>)   // None: the text is not JSON

  datatype FileFormat = ParquetFile | NdjsonFile

  /** The raw file the stage writes: where, in which format, and the records
      that become its rows. */
  datatype RawOutput = RawOutput(path: string, format: FileFormat, records: seq<Json>)

  /** A source naming a URL; any other string names a local file. The test is
      case-sensitive: `HTTP://…` names a file. */
  predicate IsUrl(source: string)
    ensures IsUrl(source) <==>
              4 <= |source| && source[0] == 'h' && source[1] == 't' && source[2] == 't' && source[3] == 'p'
  {
    StartsWith(source, "http")
  }

  /** `json.load` of the local file at `path`. */
  function LoadLocal(file: LocalFile, path: string): (r: Result<Json>)
    ensures r.Ok? <==> file.FileContents? && file.json.Some?
    ensures r.Ok? ==> r.value == file.json.value
    ensures file.NoSuchFile? ==> r == Err(FileNotFound(path)) && Kind(r.error) == FileNotFoundError
    ensures file.Unopenable? ==> r == Err(CannotOpen(path)) && Kind(r.error) == OSError
    ensures file.FileContents? && file.json.None? ==> r == Err(BadJson) && Kind(r.error) == ValueError
  {
    match file
    case NoSuchFile => Err(FileNotFound(path))
    case Unopenable => Err(CannotOpen(path))
    case FileContents(None) => Err(BadJson)
    case FileContents(Some(j)) => Ok(j)
  }

  /** The decoded payload of the source: `http` answers a GET, `files` opens a
      local path. */
  function ReadSource(source: string, http: string -> HttpResult, files: string -> LocalFile): (r: Result<Json>)
    ensures IsUrl(source) && r.Ok? ==>
              http(source).Response? && !IsErrorStatus(http(source).status) && http(source).body == Some(r.value)
    ensures !IsUrl(source) && r.Ok? ==> files(source) == FileContents(Some(r.value))
    ensures r.Err? ==> Kind(r.error) in {RequestException, FileNotFoundError, OSError, ValueError}
    ensures r.Err? && Kind(r.error) == RequestException ==> IsUrl(source)
    ensures r.Err? && Kind(r.error) in {FileNotFoundError, OSError} ==> !IsUrl(source)
  {
    if IsUrl(source) then Received(http(source)) else LoadLocal(files(source), source)
  }

  /** The output selector: NDJSON at the path with `.parquet` rewritten to
      `.json`, Parquet at the path as given, anything else rejected. */
  function OutputFor(outPath: string, outputFormat: string): (r: Result<(string, FileFormat)>)
    ensures r.Ok? <==> outputFormat == "json" || outputFormat == "parquet"
    ensures r.Err? ==> r.error == UnsupportedOutputFormat(outputFormat) && Kind(r.error) == ValueError
    ensures r.Ok? ==> (r.value.1 == ParquetFile <==> outputFormat == "parquet")
    ensures r.Ok? && r.value.1 == ParquetFile ==> r.value.0 == outPath
    ensures r.Ok? && r.value.1 == NdjsonFile ==> !Contains(r.value.0, ParquetExt)
  {
    if outputFormat == "json" then
      NoParquetLeft(outPath);
      Ok((ReplaceAll(outPath, ParquetExt, JsonExt), NdjsonFile))
    else if outputFormat == "parquet" then Ok((outPath, ParquetFile))
    else Err(UnsupportedOutputFormat(outputFormat))
  }

  /** `fetch_products`: read the source, insist on a list, then pick the output. */
  function FetchProducts(apiUrl: string, outPath: string, outputFormat: string,
                         http: string -> HttpResult, files: string -> LocalFile): (r: Result<RawOutput>)
    ensures r.Ok? ==> (r.value.format == ParquetFile <==> outputFormat == "parquet")
    ensures r.Err? ==> Kind(r.error) in {RequestException, FileNotFoundError, OSError, ValueError}
  {
    match ReadSource(apiUrl, http, files)
    case Err(e) => Err(e)
    case Ok(products) =>
      if !products.JArr? then Err(NotAList)
      else
        match OutputFor(outPath, outputFormat)
        case Err(e) => Err(e)
        case Ok((path, format)) => Ok(RawOutput(path, format, products.items))
  }

  // ---------------------------------------------------------------------------
  // What the stage promises

  /** A source starting with "http" is fetched and no file is opened; any other
      source is opened as a file and nothing is fetched. */
  lemma SourceDispatch(apiUrl: string, outPath: string, outputFormat: string,
                       http1: string -> HttpResult, files1: string -> LocalFile,
                       http2: string -> HttpResult, files2: string -> LocalFile)
    ensures IsUrl(apiUrl) && http1(apiUrl) == http2(apiUrl) ==>
              FetchProducts(apiUrl, outPath, outputFormat, http1, files1) ==
              FetchProducts(apiUrl, outPath, outputFormat, http2, files2)
    ensures !IsUrl(apiUrl) && files1(apiUrl) == files2(apiUrl) ==>
              FetchProducts(apiUrl, outPath, outputFormat, http1, files1) ==
              FetchProducts(apiUrl, outPath, outputFormat, http2, files2)
  {
  }

  /** A payload that is not a list is rejected with "not a list", whatever the
      output format: the list check comes before the format check. */
  lemma NotAListRejected(apiUrl: string, outPath: string, outputFormat: string,
                         http: string -> HttpResult, files: string -> LocalFile)
    requires ReadSource(apiUrl, http, files).Ok? && !ReadSource(apiUrl, http, files).value.JArr?
    ensures FetchProducts(apiUrl, outPath, outputFormat, http, files) == Err(NotAList)
    ensures Kind(NotAList) == ValueError
  {
  }

  /** A failure reading the source (a transport error, an error status, a
      missing file, text that is not JSON) is the stage's failure, unchanged. */
  lemma SourceFailurePropagates(apiUrl: string, outPath: string, outputFormat: string,
                                http: string -> HttpResult, files: string -> LocalFile)
    requires ReadSource(apiUrl, http, files).Err?
    ensures FetchProducts(apiUrl, outPath, outputFormat, http, files) == Err(ReadSource(apiUrl, http, files).error)
  {
  }

  /** A list payload and a known format give the list's records, in order, at
      the selected path; the two formats write to their own paths. */
  lemma ListWritten(apiUrl: string, outPath: string, outputFormat: string,
                    http: string -> HttpResult, files: string -> LocalFile, items: seq<Json>)
    requires ReadSource(apiUrl, http, files) == Ok(JArr(items))
    ensures var r := FetchProducts(apiUrl, outPath, outputFormat, http, files);
            && (outputFormat == "parquet" ==> r == Ok(RawOutput(outPath, ParquetFile, items)))
            && (outputFormat == "json" ==>
                  r == Ok(RawOutput(ReplaceAll(outPath, ParquetExt, JsonExt), NdjsonFile, items)))
            && (outputFormat != "json" && outputFormat != "parquet" ==>
                  r == Err(UnsupportedOutputFormat(outputFormat)) && Kind(r.error) == ValueError)
  {
  }

  /** The NDJSON file never has `.parquet` left in its path, and a path that ends
      in `.parquet` ends in `.json` instead. */
  lemma JsonPathRewritten(outPath: string, stem: string)
    ensures OutputFor(outPath, "json").Ok? && !Contains(OutputFor(outPath, "json").value.0, ParquetExt)
    ensures outPath == stem + ParquetExt ==>
              OutputFor(outPath, "json").value.0 == ReplaceAll(stem, ParquetExt, JsonExt) + JsonExt
  {
    if outPath == stem + ParquetExt {
      ReplaceParquetSuffix(stem);
    }
  }

  // ---------------------------------------------------------------------------
  // The unit tests' scenarios

  /** A local file holding the JSON string "notalist" is a ValueError; one holding
      `[]` is accepted and written, empty, to the Parquet path. The source is a
      path under a temporary directory, not a URL. */
  lemma LocalFileCases(source: string, outPath: string, files: string -> LocalFile, http: string -> HttpResult)
    requires !IsUrl(source)
    ensures files(source) == FileContents(Some(JStr("notalist"))) ==>
              var r := FetchProducts(source, outPath, "parquet", http, files);
              r.Err? && Kind(r.error) == ValueError
    ensures files(source) == FileContents(Some(JArr([]))) ==>
              FetchProducts(source, outPath, "parquet", http, files) == Ok(RawOutput(outPath, ParquetFile, []))
  {
  }

  /** A GET that fails in transport makes the stage raise a RequestException; a
      list answer with the format "unsupported" makes it raise a ValueError. */
  lemma NetworkCases(source: string, outPath: string, files: string -> LocalFile, http: string -> HttpResult)
    requires source == "http://mock"
    ensures http(source).TransportFailure? ==>
              var r := FetchProducts(source, outPath, "parquet", http, files);
              r.Err? && Kind(r.error) == RequestException
    ensures http(source) == Response(200, Some(JArr([]))) ==>
              var r := FetchProducts(source, outPath, "unsupported", http, files);
              r.Err? && Kind(r.error) == ValueError
  {
    assert source[..4] == "http";
  }
}
