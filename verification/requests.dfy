/**
  What the two parameter-mining variants share: the request options, the shape
  of the request built for each method, and the status, header, body and
  redirect comparisons that make up most of the ResponseFactors.
 */
module Requests {
  import opened Wrappers
  import opened Text
  import opened Http
  import opened Scanners

  datatype RequestOptions = RequestOptions(httpMethod: string, headers: map<string, string>, data: map<string, string>)

  /** The request body: form fields, a JSON object of strings, or raw XML. */
  datatype Payload = NoPayload | Form(fields: map<string, string>) | JsonObject(fields: map<string, string>) | Xml(content: string)

  /**
    A request ready to send. For GET, `query` holds the pairs added to the URL's
    query; `header` is the header set on the request.
   */
  datatype Request = Request(verb: string, url: string, query: map<string, string>, payload: Payload, header: map<string, string>)

  datatype RequestError = MissingXml | UnsupportedMethod(name: string)

  /** The methods accepted, after upper-casing. */
  predicate KnownMethod(m: string) {
    m == "GET" || m == "POST" || m == "JSON" || m == "XML"
  }

  /** The Content-Type a POST-based method sets before the caller's headers. */
  function ContentTypeOf(m: string): string {
    if m == "POST" then "application/x-www-form-urlencoded"
    else if m == "JSON" then "application/json"
    else "application/xml"
  }

  /**
    DoRequest (bruter.go) and makeRequest (miner.go), up to sending: the method
    is matched case-insensitively; GET carries the data in the query, POST,
    JSON and XML all use the POST verb with a body, and the caller's headers are
    set last, so they override the Content-Type.
   */
  function DoRequest(targetURL: string, options: RequestOptions): (r: Result<Request, RequestError>)
    ensures r.Success? <==> (KnownMethod(ToUpper(options.httpMethod)) && (ToUpper(options.httpMethod) == "XML" ==> "xml" in options.data))
    ensures r.Failure? ==> (r.error == MissingXml <==> ToUpper(options.httpMethod) == "XML")
    ensures r.Failure? && r.error.UnsupportedMethod? ==> r.error.name == options.httpMethod
    ensures r.Success? ==> r.value.url == targetURL && (r.value.verb == "GET" <==> ToUpper(options.httpMethod) == "GET")
    ensures r.Success? ==> r.value.verb == "GET" || r.value.verb == "POST"
    ensures r.Success? ==> forall k :: k in options.headers ==> k in r.value.header && r.value.header[k] == options.headers[k]
    ensures r.Success? && r.value.verb == "GET" ==> r.value.query == options.data && r.value.payload == NoPayload && r.value.header == options.headers
    ensures r.Success? && r.value.verb == "POST" ==>
              && r.value.query == map[]
              && "Content-Type" in r.value.header
              && r.value.header["Content-Type"] == (if "Content-Type" in options.headers then options.headers["Content-Type"] else ContentTypeOf(ToUpper(options.httpMethod)))
    ensures r.Success? && ToUpper(options.httpMethod) == "XML" ==> r.value.payload == Xml(options.data["xml"])
  {
    var m := ToUpper(options.httpMethod);
    if m == "GET" then
      Success(Request("GET", targetURL, options.data, NoPayload, options.headers))
    else if m == "POST" || m == "JSON" || m == "XML" then
      if m == "XML" && "xml" !in options.data then Failure(MissingXml)
      else
        var payload :=
          if m == "POST" then Form(options.data)
          else if m == "JSON" then JsonObject(options.data)
          else Xml(options.data["xml"]);
        Success(Request("POST", targetURL, map[], payload, map["Content-Type" := ContentTypeOf(m)] + options.headers))
    else
      Failure(UnsupportedMethod(options.httpMethod))
  }

  /** Two spellings of the same method build the same request. */
  lemma MethodCaseInsensitive(targetURL: string, a: RequestOptions, b: RequestOptions)
    requires a.headers == b.headers && a.data == b.data
    requires ToUpper(a.httpMethod) == ToUpper(b.httpMethod)
    ensures DoRequest(targetURL, a).Success? == DoRequest(targetURL, b).Success?
    ensures DoRequest(targetURL, a).Success? ==> DoRequest(targetURL, a) == DoRequest(targetURL, b)
  {
  }

  /** XML sends the "xml" entry alone: the other data entries do not reach the request. */
  lemma XmlIgnoresOtherData(targetURL: string, options: RequestOptions, key: string, value: string)
    requires ToUpper(options.httpMethod) == "XML" && "xml" in options.data && key != "xml"
    ensures DoRequest(targetURL, options.(data := options.data[key := value])) == DoRequest(targetURL, options)
  {
  }

  // ---------------------------------------------------------------------------
  // Response factors

  /**
    The differences between a baseline response and the response to the
    request with the parameter added. LinesNum and LinesDiff are never set.
   */
  datatype ResponseFactors = ResponseFactors(
    sameCode: int,
    sameBody: string,
    samePlaintext: string,
    linesNum: int,
    linesDiff: seq<string>,
    sameHeaders: set<string>,
    sameRedirect: string,
    paramMissing: seq<string>,
    valueMissing: bool,
    responseTimeDiff: real,
    contentLengthDiff: int,
    headerChanges: map<string, string>,
    javaScriptVars: seq<string>)

  /** The headers of the baseline whose first value the second response does not repeat, as "old -> new". */
  function HeaderChanges(h1: Header, h2: Header): (changes: map<string, string>)
    ensures forall k :: k in changes <==> k in h1 && |h1[k]| > 0 && h1[k][0] != HeaderGet(h2, k)
    ensures forall k :: k in changes ==> changes[k] == h1[k][0] + " -> " + HeaderGet(h2, k)
  {
    map k | k in h1 && |h1[k]| > 0 && h1[k][0] != HeaderGet(h2, k) :: h1[k][0] + " -> " + HeaderGet(h2, k)
  }

  /** Both responses redirect to the same non-empty Location. */
  function SameRedirect(r1: Response, r2: Response): (loc: string)
    ensures loc != "" <==> HeaderGet(r1.header, "Location") != "" && HeaderGet(r1.header, "Location") == HeaderGet(r2.header, "Location")
    ensures loc != "" ==> loc == HeaderGet(r1.header, "Location") && loc == HeaderGet(r2.header, "Location")
  {
    var l1 := HeaderGet(r1.header, "Location");
    var l2 := HeaderGet(r2.header, "Location");
    if l1 != "" && l2 != "" && l1 == l2 then l1 else ""
  }
  /** The order of the two responses does not matter. */
  lemma SameRedirectSymmetric(r1: Response, r2: Response)
    ensures SameRedirect(r1, r2) == SameRedirect(r2, r1)
  {
  }


  /**
    The parts of compareResponses common to both variants. When a body could
    not be read only the status and header comparisons are filled in. The
    "missing" rules, which differ between the variants, are left unset.
   */
  function CommonFactors(r1: Response, r2: Response, time1: real, time2: real): (f: ResponseFactors)
    ensures f.sameCode != 0 ==> r1.status == r2.status
    ensures r1.status == r2.status ==> f.sameCode == r1.status
    ensures f.sameHeaders == r1.header.Keys
    ensures f.headerChanges == HeaderChanges(r1.header, r2.header)
    ensures f.paramMissing == [] && !f.valueMissing && f.linesNum == 0 && f.linesDiff == []
    ensures r1.body.None? || r2.body.None? ==>
              f.sameBody == "" && f.samePlaintext == "" && f.sameRedirect == ""
              && f.responseTimeDiff == 0.0 && f.contentLengthDiff == 0 && f.javaScriptVars == []
    ensures r1.body.Some? && r2.body.Some? ==>
              var b1 := r1.body.value; var b2 := r2.body.value;
              && (b1 == b2 ==> f.sameBody == b1 && f.samePlaintext == "")
              && (f.sameBody != "" ==> b1 == b2)
              && (f.samePlaintext != "" ==> b1 != b2 && StripTags(b1) == StripTags(b2) && f.samePlaintext == StripTags(b1))
              && (b1 != b2 && StripTags(b1) == StripTags(b2) ==> f.samePlaintext == StripTags(b1))
              && (f.sameRedirect != "" <==> HeaderGet(r1.header, "Location") != "" && HeaderGet(r1.header, "Location") == HeaderGet(r2.header, "Location"))
              && f.responseTimeDiff == time2 - time1
              && f.contentLengthDiff == ByteLen(b2) - ByteLen(b1)
              && f.javaScriptVars == JsVariables(b2)
  {
    var headerPart := ResponseFactors(
      if r1.status == r2.status then r1.status else 0,
      "", "", 0, [], r1.header.Keys, "", [], false, 0.0, 0,
      HeaderChanges(r1.header, r2.header), []);
    if r1.body.None? || r2.body.None? then headerPart
    else
      var b1 := r1.body.value;
      var b2 := r2.body.value;
      headerPart.(
        sameBody := if b1 == b2 then b1 else "",
        samePlaintext := if b1 != b2 && StripTags(b1) == StripTags(b2) then StripTags(b1) else "",
        sameRedirect := SameRedirect(r1, r2),
        responseTimeDiff := time2 - time1,
        contentLengthDiff := ByteLen(b2) - ByteLen(b1),
        javaScriptVars := JsVariables(b2))
  }

  /** Identical bodies differ by nothing: no length difference and the same plaintext is not recomputed. */
  lemma IdenticalBodiesNoDiff(r1: Response, r2: Response, time1: real, time2: real)
    requires r1.body.Some? && r1.body == r2.body
    ensures CommonFactors(r1, r2, time1, time2).contentLengthDiff == 0
    ensures CommonFactors(r1, r2, time1, time2).sameBody == r1.body.value
  {
  }
}
