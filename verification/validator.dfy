/**
  The reflection validator (validator.go): a query parameter whose value shows
  up in an HTML response is re-checked with a unique suffix appended, and the
  parameters that pass are probed with thirteen special characters to see
  which come back unfiltered.
 */
module Validator {
  import opened Wrappers
  import opened Text
  import opened Seqs
  import opened Http

  /**
    A parsed URL: everything but the query, and the decoded query, a key to
    its values in order (url.Values).
   */
  datatype Url = Url(location: string, query: map<string, seq<string>>)

  /** ParamCheck: a target and one of its query parameters. */
  datatype ParamCheck = ParamCheck(url: string, param: string)

  datatype CheckError = BadUrl | RequestFailed | ReadFailed

  predicate IsRedirect(status: int) {
    300 <= status < 400
  }

  /** A response without a Content-Type, or one that mentions "html", is inspected. */
  predicate HtmlOrUntyped(contentType: string) {
    contentType == "" || Contains(contentType, "html")
  }

  /** checkReflected looks at the body of this response. */
  predicate Inspected(resp: Response) {
    !IsRedirect(resp.status) && HtmlOrUntyped(HeaderGet(resp.header, "Content-Type"))
  }

  /** The inner loop of checkReflected: some value of the key occurs in the body. */
  function ValuesReflected(values: seq<string>, body: string): (b: bool)
    ensures b <==> exists i :: 0 <= i < |values| && Contains(body, values[i])
  {
    if |values| == 0 then false
    else if Contains(body, values[0]) then true
    else
      var b := ValuesReflected(values[1..], body);
      assert forall i :: 1 <= i < |values| ==> values[i] == values[1..][i - 1];
      b
  }

  /**
    checkReflected after the URL has been parsed: `fetch` performs the GET
    (None when it fails). Redirects and non-HTML responses report nothing; a
    body that cannot be read is an error.
   */
  function InspectUrl(u: Url, fetch: Url -> Option<Response>): (r: Result<set<string>, CheckError>)
    ensures fetch(u).None? ==> r == Failure(RequestFailed)
    ensures fetch(u).Some? && !Inspected(fetch(u).value) ==> r == Success({})
    ensures r.Failure? <==> fetch(u).None? || (Inspected(fetch(u).value) && fetch(u).value.body.None?)
    ensures r.Success? && r.value != {} ==> fetch(u).Some? && Inspected(fetch(u).value) && fetch(u).value.body.Some?
    ensures r.Success? && fetch(u).Some? && fetch(u).value.body.Some? && Inspected(fetch(u).value) ==>
              forall k :: k in r.value <==> k in u.query && ValuesReflected(u.query[k], fetch(u).value.body.value)
  {
    match fetch(u)
    case None => Failure(RequestFailed)
    case Some(resp) =>
      if IsRedirect(resp.status) then Success({})
      else if !HtmlOrUntyped(HeaderGet(resp.header, "Content-Type")) then Success({})
      else
        match resp.body
        case None => Failure(ReadFailed)
        case Some(body) => Success(set k | k in u.query && ValuesReflected(u.query[k], body))
  }

  /**
    checkReflected (and IdentifyReflectedParams): `parse` is url.Parse, which
    both the request and the query extraction apply to the same string.
   */
  function CheckReflected(targetURL: string, parse: string -> Option<Url>, fetch: Url -> Option<Response>)
    : (r: Result<set<string>, CheckError>)
    ensures parse(targetURL).None? <==> r == Failure(BadUrl)
    ensures parse(targetURL).Some? ==> r == InspectUrl(parse(targetURL).value, fetch)
    ensures r.Success? ==> forall k :: k in r.value ==> k in parse(targetURL).value.query
  {
    match parse(targetURL)
    case None => Failure(BadUrl)
    case Some(u) => InspectUrl(u, fetch)
  }

  /** A parameter with an empty value is reported by every inspected page, since "" occurs in any body. */
  lemma EmptyValueReflected(u: Url, fetch: Url -> Option<Response>, k: string)
    requires fetch(u).Some? && Inspected(fetch(u).value) && fetch(u).value.body.Some?
    requires k in u.query && "" in u.query[k]
    ensures InspectUrl(u, fetch).Success? && k in InspectUrl(u, fetch).value
  {
    ContainsEmpty(fetch(u).value.body.value);
    var i :| 0 <= i < |u.query[k]| && u.query[k][i] == "";
    assert Contains(fetch(u).value.body.value, u.query[k][i]);
  }

  /** url.Values.Get: the first value of the key, or "" when the key has none. */
  function QueryGet(query: map<string, seq<string>>, key: string): (v: string)
    ensures key in query && query[key] != [] ==> v == query[key][0]
    ensures v != "" ==> key in query && v in query[key]
  {
    if key in query && |query[key]| > 0 then query[key][0] else ""
  }

  /** The query with `param` set to its first value (or "") followed by `suffix`; nothing else changes. */
  function Mutate(u: Url, param: string, suffix: string): (m: Url)
    ensures m.location == u.location
    ensures m.query.Keys == u.query.Keys + {param}
    ensures m.query[param] == [QueryGet(u.query, param) + suffix]
    ensures forall k :: k in u.query && k != param ==> m.query[k] == u.query[k]
  {
    u.(query := u.query[param := [QueryGet(u.query, param) + suffix]])
  }
  /** Reading the parameter back after the mutation gives its old first value with the suffix (Set, then Get). */
  lemma QueryGetAfterMutate(u: Url, param: string, suffix: string)
    ensures QueryGet(Mutate(u, param, suffix).query, param) == QueryGet(u.query, param) + suffix
  {
  }


  /**
    checkAppend: the parameter is reflected once its value carries the
    suffix. The mutated URL is given to the inspection as parsed, without the
    trip through its encoded string form.
   */
  function CheckAppend(targetURL: string, param: string, suffix: string,
                       parse: string -> Option<Url>, fetch: Url -> Option<Response>): (r: Result<bool, CheckError>)
    ensures parse(targetURL).None? <==> r == Failure(BadUrl)
    ensures parse(targetURL).Some? ==>
              var m := Mutate(parse(targetURL).value, param, suffix);
              r.Success? == InspectUrl(m, fetch).Success?
              && (r.Success? ==> (r.value <==> param in InspectUrl(m, fetch).value))
  {
    match parse(targetURL)
    case None => Failure(BadUrl)
    case Some(u) =>
      match InspectUrl(Mutate(u, param, suffix), fetch)
      case Failure(e) => Failure(e)
      case Success(reflected) => Success(param in reflected)
  }

  /**
    The parameter passes checkAppend exactly when the page fetched with the
    mutated query is inspected and its body contains the original value with
    the suffix appended.
   */
  lemma CheckAppendIff(targetURL: string, param: string, suffix: string,
                       parse: string -> Option<Url>, fetch: Url -> Option<Response>)
    ensures CheckAppend(targetURL, param, suffix, parse, fetch) == Success(true) <==>
              && parse(targetURL).Some?
              && var m := Mutate(parse(targetURL).value, param, suffix);
                 && fetch(m).Some? && Inspected(fetch(m).value) && fetch(m).value.body.Some?
                 && Contains(fetch(m).value.body.value, QueryGet(parse(targetURL).value.query, param) + suffix)
  {
    if parse(targetURL).Some? {
      var u := parse(targetURL).value;
      var m := Mutate(u, param, suffix);
      var v := QueryGet(u.query, param) + suffix;
      if fetch(m).Some? && Inspected(fetch(m).value) && fetch(m).value.body.Some? {
        var body := fetch(m).value.body.value;
        assert m.query[param] == [v];
        assert ValuesReflected([v], body) <==> Contains(body, v);
      }
    }
  }

  /** The suffix of processAppendedCheck. */
  const AppendSuffix: string := "iy3j4h234hjb23234"

  /** processAppendedCheck: the check is passed on when the suffixed value comes back. */
  predicate ProcessAppendedCheck(pc: ParamCheck, parse: string -> Option<Url>, fetch: Url -> Option<Response>) {
    CheckAppend(pc.url, pc.param, AppendSuffix, parse, fetch) == Success(true)
  }

  /** The characters processCharInjection tries, in order. */
  const SpecialChars: seq<string> := ["\"", "'", "<", ">", "$", "|", "(", ")", "`", ":", ";", "{", "}"]

  function InjectionSuffix(c: string): (s: string)
    ensures |s| == |c| + 14
    ensures HasPrefix(s, "aprefix") && HasSuffix(s, "asuffix")
    ensures s[7..|s| - 7] == c
  {
    "aprefix" + c + "asuffix"
  }

  predicate Unfiltered(pc: ParamCheck, parse: string -> Option<Url>, fetch: Url -> Option<Response>, c: string) {
    CheckAppend(pc.url, pc.param, InjectionSuffix(c), parse, fetch) == Success(true)
  }

  /**
    processCharInjection: the special characters that come back unfiltered,
    in the order tried; a character whose check fails is skipped. A line is
    printed only when the result is non-empty.
   */
  function ProcessCharInjection(pc: ParamCheck, parse: string -> Option<Url>, fetch: Url -> Option<Response>)
    : (chars: seq<string>)
    ensures forall c :: c in chars <==> c in SpecialChars && Unfiltered(pc, parse, fetch, c)
    ensures Subseq(chars, SpecialChars)
    ensures |chars| <= |SpecialChars|
  {
    Filter(SpecialChars, c => Unfiltered(pc, parse, fetch, c))
  }

  /** processReflectedParams: one check per reflected parameter; an error yields none. */
  function ProcessReflectedParams(targetURL: string, parse: string -> Option<Url>, fetch: Url -> Option<Response>)
    : (checks: set<ParamCheck>)
    ensures forall pc :: pc in checks ==> pc.url == targetURL
    ensures forall p :: ParamCheck(targetURL, p) in checks <==>
              CheckReflected(targetURL, parse, fetch).Success? && p in CheckReflected(targetURL, parse, fetch).value
  {
    match CheckReflected(targetURL, parse, fetch)
    case Failure(_) => {}
    case Success(params) => set p | p in params :: ParamCheck(targetURL, p)
  }

  /** The lines, each trimmed of surrounding white space. */
  function TrimAll(lines: seq<string>): (trimmed: seq<string>)
    ensures |trimmed| == |lines|
    ensures forall i :: 0 <= i < |lines| ==> trimmed[i] == TrimSpace(lines[i])
  {
    seq(|lines|, i requires 0 <= i < |lines| => TrimSpace(lines[i]))
  }

  /** The stdin lines that main feeds to the pipeline: trimmed, blank lines dropped. */
  function InputTargets(lines: seq<string>): (targets: seq<string>)
    ensures forall t :: t in targets ==> t != [] && TrimSpace(t) == t
    ensures forall t :: t in targets <==> t != [] && exists i :: 0 <= i < |lines| && TrimSpace(lines[i]) == t
  {
    var trimmed := TrimAll(lines);
    TrimmedAreTrimmed(lines);
    Filter(trimmed, NonBlank)
  }

  predicate NonBlank(t: string) {
    t != []
  }

  lemma TrimmedAreTrimmed(lines: seq<string>)
    ensures forall t :: t in TrimAll(lines) ==> TrimSpace(t) == t
    ensures forall t :: t in TrimAll(lines) <==> exists i :: 0 <= i < |lines| && TrimSpace(lines[i]) == t
  {
    var trimmed := TrimAll(lines);
    forall t | t in trimmed
      ensures TrimSpace(t) == t
    {
      var i :| 0 <= i < |trimmed| && trimmed[i] == t;
      TrimSpaceIdempotent(lines[i]);
    }
    forall t | exists i :: 0 <= i < |lines| && TrimSpace(lines[i]) == t
      ensures t in trimmed
    {
      var i :| 0 <= i < |lines| && TrimSpace(lines[i]) == t;
      assert trimmed[i] == t;
    }
  }

  /** One printed line: the target, the parameter and its unfiltered characters. */
  datatype Report = Report(url: string, param: string, unfiltered: seq<string>)

  /**
    The three pools of main run in sequence: the reports printed, as a set
    since the workers' interleaving fixes no order.
   */
  function Validate(lines: seq<string>, parse: string -> Option<Url>, fetch: Url -> Option<Response>)
    : (reports: set<Report>)
    ensures forall r :: r in reports ==>
              && r.url in InputTargets(lines)
              && ParamCheck(r.url, r.param) in ProcessReflectedParams(r.url, parse, fetch)
              && ProcessAppendedCheck(ParamCheck(r.url, r.param), parse, fetch)
              && r.unfiltered == ProcessCharInjection(ParamCheck(r.url, r.param), parse, fetch)
              && r.unfiltered != []
    ensures forall t, p ::
              && t in InputTargets(lines)
              && ParamCheck(t, p) in ProcessReflectedParams(t, parse, fetch)
              && ProcessAppendedCheck(ParamCheck(t, p), parse, fetch)
              && ProcessCharInjection(ParamCheck(t, p), parse, fetch) != []
              ==> Report(t, p, ProcessCharInjection(ParamCheck(t, p), parse, fetch)) in reports
  {
    var targets := InputTargets(lines);
    set t, pc | t in targets && pc in ProcessReflectedParams(t, parse, fetch)
                && ProcessAppendedCheck(pc, parse, fetch)
                && ProcessCharInjection(pc, parse, fetch) != []
      :: Report(pc.url, pc.param, ProcessCharInjection(pc, parse, fetch))
  }

  /** Every reported parameter is a key of the target's query, and every reported character is a special one. */
  lemma ReportedParamInQuery(lines: seq<string>, parse: string -> Option<Url>, fetch: Url -> Option<Response>, r: Report)
    requires r in Validate(lines, parse, fetch)
    ensures parse(r.url).Some? && r.param in parse(r.url).value.query
    ensures forall c :: c in r.unfiltered ==> c in SpecialChars
  {
  }
}
