/** The USD to GBP rate lookup against Open Exchange Rates: a credential check
    made before any request, one GET, and validation of the `rates.GBP` field. */
module RateClient {
  import opened Common
  import opened Text

  const LatestRatesEndpoint: string := "https://openexchangerates.org/api/latest.json"

  const IdQuery: string := LatestRatesEndpoint + "?app_id="
  const GbpOnly: string := "&symbols=GBP"

  /** The request URL for an app id, asking for the GBP rate only: the app id
      sits, unaltered, between the endpoint's query and the symbol filter. */
  function RateUrl(appId: string): (url: string)
    ensures |url| == |IdQuery| + |appId| + |GbpOnly|
    ensures StartsWith(url, IdQuery) && EndsWith(url, GbpOnly)
    ensures url[|IdQuery|..|url| - |GbpOnly|] == appId
  {
    IdQuery + appId + GbpOnly
  }

  /** Different app ids ask for different URLs. */
  lemma RateUrlInjective(a: string, b: string)
    requires RateUrl(a) == RateUrl(b)
    ensures a == b
  {
    assert a == RateUrl(a)[|IdQuery|..|RateUrl(a)| - |GbpOnly|];
  }

  /** The app id in use: the explicit one unless it is absent or empty, else the
      one from the environment; an empty id counts as no id at all. */
  function ResolveAppId(appId: Option<string>, envAppId: Option<string>): (r: Option<string>)
    ensures r.Some? ==> r.value != ""
    ensures r.Some? <==> (appId.Some? && appId.value != "") || (envAppId.Some? && envAppId.value != "")
    ensures appId.Some? && appId.value != "" ==> r == appId
    ensures r.Some? ==> r == appId || r == envAppId
  {
    if appId.Some? && appId.value != "" then appId
    else if envAppId.Some? && envAppId.value != "" then envAppId
    else None
  }

  /** The model's `float()` on a decoded JSON value: numbers and booleans
      convert, everything else gives no value. Numeric text, which Python's
      `float()` parses, is not modelled. */
  function ToFloat(j: Json): (r: Option<real>)
    ensures r.Some? <==> j.JNum? || j.JBool?
    ensures j.JNum? ==> r == Some(j.n)
    ensures j.JBool? ==> r == Some(if j.b then 1.0 else 0.0)
  {
    match j
    case JNum(n) => Some(n)
    case JBool(b) => Some(if b then 1.0 else 0.0)
    case _ => None
  }

  /** `float(data["rates"]["GBP"])`, or None where any step of it raises. */
  function GbpField(data: Json): (r: Option<real>)
    ensures r.Some? ==> data.JObj? && "rates" in data.fields
    ensures r.Some? ==> data.fields["rates"].JObj? && "GBP" in data.fields["rates"].fields
    ensures r.Some? ==> r == ToFloat(data.fields["rates"].fields["GBP"])
    ensures data.JObj? && "rates" in data.fields && data.fields["rates"].JObj? &&
            "GBP" in data.fields["rates"].fields && data.fields["rates"].fields["GBP"].JNum? ==>
              r == Some(data.fields["rates"].fields["GBP"].n)
  {
    if data.JObj? && "rates" in data.fields then
      var rates := data.fields["rates"];
      if rates.JObj? && "GBP" in rates.fields then ToFloat(rates.fields["GBP"]) else None
    else None
  }

  /** `get_usd_to_gbp_rate`: `http` answers the GET for a URL. */
  function GetUsdToGbpRate(appId: Option<string>, envAppId: Option<string>, http: string -> HttpResult): (r: Result<real>)
    ensures r.Ok? ==> r.value > 0.0
    ensures r == Err(MissingCredential) <==> ResolveAppId(appId, envAppId).None?
  {
    match ResolveAppId(appId, envAppId)
    case None => Err(MissingCredential)
    case Some(id) =>
      match Received(http(RateUrl(id)))
      case Err(e) => Err(e)
      case Ok(data) =>
        match GbpField(data)
        case None => Err(RateFieldMissing)
        case Some(rate) => if rate <= 0.0 then Err(InvalidRate(rate)) else Ok(rate)
  }

  /** Without an app id the lookup fails before any request: its outcome does
      not depend on what the rate service would answer. */
  lemma NoRequestWithoutAppId(appId: Option<string>, envAppId: Option<string>, http1: string -> HttpResult, http2: string -> HttpResult)
    requires ResolveAppId(appId, envAppId).None?
    ensures GetUsdToGbpRate(appId, envAppId, http1) == GetUsdToGbpRate(appId, envAppId, http2) == Err(MissingCredential)
    ensures Kind(GetUsdToGbpRate(appId, envAppId, http1).error) == RuntimeError
  {
  }

  /** The service is asked about one URL only, the one built from the app id in use. */
  lemma OnlyRateUrlRequested(appId: Option<string>, envAppId: Option<string>, http1: string -> HttpResult, http2: string -> HttpResult)
    requires ResolveAppId(appId, envAppId).Some?
    requires http1(RateUrl(ResolveAppId(appId, envAppId).value)) == http2(RateUrl(ResolveAppId(appId, envAppId).value))
    ensures GetUsdToGbpRate(appId, envAppId, http1) == GetUsdToGbpRate(appId, envAppId, http2)
  {
  }

  /** Every outcome once an app id is known: a failed GET propagates unchanged, a
      payload without a convertible `rates.GBP` is a KeyError, a rate at or below
      zero a ValueError, and any other rate is returned as it is. */
  lemma RateOutcome(appId: Option<string>, envAppId: Option<string>, http: string -> HttpResult)
    requires ResolveAppId(appId, envAppId).Some?
    ensures var got := Received(http(RateUrl(ResolveAppId(appId, envAppId).value)));
            var r := GetUsdToGbpRate(appId, envAppId, http);
            && (got.Err? ==> r == Err(got.error))
            && (got.Ok? && GbpField(got.value).None? ==> r == Err(RateFieldMissing) && Kind(r.error) == KeyError)
            && (got.Ok? && GbpField(got.value).Some? && GbpField(got.value).value <= 0.0 ==>
                  r == Err(InvalidRate(GbpField(got.value).value)) && Kind(r.error) == ValueError)
            && (r.Ok? <==> got.Ok? && GbpField(got.value).Some? && GbpField(got.value).value > 0.0)
            && (r.Ok? ==> r.value == GbpField(got.value).value)
  {
  }

  /** A well-formed answer `{"rates": {"GBP": x}}` with positive `x` yields `x`. */
  lemma RateFromWellFormedPayload(id: string, x: real, http: string -> HttpResult)
    requires id != "" && x > 0.0
    requires http(RateUrl(id)) == Response(200, Some(JObj(map["rates" := JObj(map["GBP" := JNum(x)])])))
    ensures GetUsdToGbpRate(Some(id), None, http) == Ok(x)
  {
  }
}
