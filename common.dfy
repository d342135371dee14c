/** Shared vocabulary of the three ETL stages: optional values, results that carry
    one of the errors the stages raise, the Python exception class each error
    surfaces as, JSON payloads and the outcome of one HTTP GET. */
module Common {

  datatype Option<+T> = None | Some(value: T)

  datatype Result<+T> = Ok(value: T) | Err(error: Error)

  /** The Python exception classes a caller of the stages can observe. */
  datatype ExceptionKind =
    | ValueError
    | KeyError
    | RuntimeError
    | RequestException
    | FileNotFoundError
    | BinderException
    | OSError

  /** Every way a stage of the core can fail. */
  datatype Error =
    | Transport(reason: string)                       // connection failure or timeout of a GET
    | HttpStatus(code: int)                           // raise_for_status on a 4xx/5xx answer
    | BadJson                                         // body or file is not JSON
    | FileNotFound(path: string)                      // open() of a missing local source
    | CannotOpen(path: string)                        // open() refused: a directory, no permission
    | NotAList                                        // "Source is not a list of products"
    | UnsupportedOutputFormat(format: string)         // fetch output selector
    | MissingCredential                               // no Open Exchange Rates app id
    | RateFieldMissing                                // payload without rates.GBP
    | InvalidRate(rate: real)                         // rates.GBP <= 0
    | UnsupportedInputFormat(ext: string)             // transform input suffix
    | MissingColumns(missing: seq<string>)            // required columns absent
    | ColumnCountMismatch(table: nat, frame: nat)     // INSERT into a table of another width

  /** The exception class each error is raised as. */
  function Kind(e: Error): ExceptionKind
  {
    match e
    case Transport(_) => RequestException
    case HttpStatus(_) => RequestException
    case BadJson => ValueError
    case FileNotFound(_) => FileNotFoundError
    case CannotOpen(_) => OSError
    case NotAList => ValueError
    case UnsupportedOutputFormat(_) => ValueError
    case MissingCredential => RuntimeError
    case RateFieldMissing => KeyError
    case InvalidRate(_) => ValueError
    case UnsupportedInputFormat(_) => ValueError
    case MissingColumns(_) => ValueError
    case ColumnCountMismatch(_, _) => BinderException
  }

  /** A parsed JSON document. */
  datatype Json =
    | JNull
    | JBool(b: bool)
    | JNum(n: real)
    | JStr(s: string)
    | JArr(items: seq<Json>)
    | JObj(fields: map<string, Json>)

  /** What one GET comes back with: a transport failure, or a status code and a
      body that may or may not parse. The rate lookup's GET includes its session's
      retries; the fetch stage's GET is a single attempt. */
  datatype HttpResult =
    | TransportFailure(reason: string)
    | Response(status: int, body: Option<Json>)

  /** `raise_for_status` raises for client (4xx) and server (5xx) errors only. */
  predicate IsErrorStatus(status: int)
  {
    400 <= status < 600
  }

  /** The JSON document of a GET, as `get`, `raise_for_status` and `json()` in
      sequence yield it: a transport failure first, then an error status, then a
      body that does not parse. */
  function Received(h: HttpResult): (r: Result<Json>)
    ensures r.Ok? <==> h.Response? && !IsErrorStatus(h.status) && h.body.Some?
    ensures r.Ok? ==> r.value == h.body.value
    ensures h.TransportFailure? ==> r == Err(Transport(h.reason))
    ensures h.Response? && IsErrorStatus(h.status) ==> r == Err(HttpStatus(h.status))
    ensures h.Response? && !IsErrorStatus(h.status) && h.body.None? ==> r == Err(BadJson)
    ensures r.Err? ==> Kind(r.error) == RequestException || r.error == BadJson
  {
    match h
    case TransportFailure(reason) => Err(Transport(reason))
    case Response(status, body) =>
      if IsErrorStatus(status) then Err(HttpStatus(status))
      else if body.None? then Err(BadJson)
      else Ok(body.value)
  }
}
