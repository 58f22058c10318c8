/**
  The scoring variant of the parameter miner (bruter.go): a parameter is
  flagged when at least two of four difference signals fire.
 */
module Bruter {
  import opened Wrappers
  import opened Text
  import opened Seqs
  import opened Http
  import opened Requests

  const ResponseTimeThreshold: real := 1.3
  const ContentLengthThreshold: int := 100
  const FlagScoreThreshold: nat := 2

  /** The value sent for every parameter probed. */
  const TestValue: string := "test-value"

  /**
    compareResponses: the common factors, with a parameter (or value) counted
    as missing only when the baseline body contains it and the second does not.
   */
  function CompareResponses(r1: Response, r2: Response, param: string, value: string,
                            wordlist: seq<string>, time1: real, time2: real): (f: ResponseFactors)
    ensures f == CommonFactors(r1, r2, time1, time2).(paramMissing := f.paramMissing, valueMissing := f.valueMissing)
    ensures f.paramMissing == [] || f.paramMissing == wordlist
    ensures f.paramMissing != [] ==>
              r1.body.Some? && r2.body.Some? && Contains(r1.body.value, param) && !Contains(r2.body.value, param)
    ensures r1.body.Some? && r2.body.Some? && Contains(r1.body.value, param) && !Contains(r2.body.value, param) ==>
              f.paramMissing == wordlist
    ensures f.valueMissing <==>
              r1.body.Some? && r2.body.Some? && Contains(r1.body.value, value) && !Contains(r2.body.value, value)
  {
    var f := CommonFactors(r1, r2, time1, time2);
    if r1.body.None? || r2.body.None? then f
    else
      var b1 := r1.body.value;
      var b2 := r2.body.value;
      f.(paramMissing := if Contains(b1, param) && !Contains(b2, param) then wordlist else [],
         valueMissing := Contains(b1, value) && !Contains(b2, value))
  }

  function Abs(x: real): real {
    if x < 0.0 then -x else x
  }

  /** The response-time signal of isFlagged: math.Abs(d) > d * 1.3. */
  predicate TimeSignal(d: real) {
    Abs(d) > d * ResponseTimeThreshold
  }

  /** The time signal fires exactly when the second response was faster than the baseline. */
  lemma TimeSignalIffFaster(d: real)
    ensures TimeSignal(d) <==> d < 0.0
  {
  }

  /** The length signal: more than 100 bytes of difference either way. */
  predicate LengthSignal(diff: int) {
    diff > ContentLengthThreshold || diff < -ContentLengthThreshold
  }

  /** A difference of exactly 100 bytes, up or down, does not count. */
  lemma LengthSignalStrict(diff: int)
    requires diff == 100 || diff == -100
    ensures !LengthSignal(diff)
  {
  }

  function Point(b: bool): nat {
    if b then 1 else 0
  }

  /** The score of isFlagged: one point per signal. */
  function Score(f: ResponseFactors): (s: nat)
    ensures s <= 4
    ensures s == 0 <==> !f.valueMissing && f.paramMissing == [] && !TimeSignal(f.responseTimeDiff) && !LengthSignal(f.contentLengthDiff)
  {
    Point(f.valueMissing) + Point(|f.paramMissing| > 0)
      + Point(TimeSignal(f.responseTimeDiff)) + Point(LengthSignal(f.contentLengthDiff))
  }

  /** isFlagged */
  predicate IsFlagged(f: ResponseFactors) {
    Score(f) >= FlagScoreThreshold
  }

  /** A single signal never flags; any two do. */
  lemma FlaggedIffTwoSignals(f: ResponseFactors)
    ensures IsFlagged(f) <==>
      || (f.valueMissing && f.paramMissing != [])
      || (f.valueMissing && TimeSignal(f.responseTimeDiff))
      || (f.valueMissing && LengthSignal(f.contentLengthDiff))
      || (f.paramMissing != [] && TimeSignal(f.responseTimeDiff))
      || (f.paramMissing != [] && LengthSignal(f.contentLengthDiff))
      || (TimeSignal(f.responseTimeDiff) && LengthSignal(f.contentLengthDiff))
  {
  }

  /** Two byte-identical bodies are never flagged, whatever the timing. */
  lemma IdenticalBodiesNotFlagged(r1: Response, r2: Response, param: string, value: string,
                                  wordlist: seq<string>, time1: real, time2: real)
    requires r1.body.Some? && r1.body == r2.body
    ensures !IsFlagged(CompareResponses(r1, r2, param, value, wordlist, time1, time2))
  {
    var f := CompareResponses(r1, r2, param, value, wordlist, time1, time2);
    IdenticalBodiesNoDiff(r1, r2, time1, time2);
    assert !f.valueMissing && f.paramMissing == [];
    assert !LengthSignal(f.contentLengthDiff);
  }

  /** When a body cannot be read, no signal fires. */
  lemma UnreadBodyNotFlagged(r1: Response, r2: Response, param: string, value: string,
                             wordlist: seq<string>, time1: real, time2: real)
    requires r1.body.None? || r2.body.None?
    ensures Score(CompareResponses(r1, r2, param, value, wordlist, time1, time2)) == 0
  {
  }

  /** Why AnalyzeParameter gave no factors. */
  datatype AnalyzeError = BuildFailed(e: RequestError) | SendFailed

  /** The data of the second request: the baseline data with `param` set to `value`. */
  function WithParam(options: RequestOptions, param: string, value: string): (o: RequestOptions)
    ensures o.httpMethod == options.httpMethod && o.headers == options.headers
    ensures o.data.Keys == options.data.Keys + {param} && o.data[param] == value
    ensures forall k :: k in options.data && k != param ==> o.data[k] == options.data[k]
  {
    options.(data := options.data[param := value])
  }

  /** Setting a parameter again keeps only the last value. */
  lemma WithParamOverwrites(options: RequestOptions, param: string, v1: string, v2: string)
    ensures WithParam(WithParam(options, param, v1), param, v2) == WithParam(options, param, v2)
  {
    var a := WithParam(WithParam(options, param, v1), param, v2);
    var b := WithParam(options, param, v2);
    assert a.data == b.data;
  }

  /**
    AnalyzeParameter: the baseline request, then the request with the parameter
    set, then the comparison. `send` performs a request and reports the response
    and the seconds it took (None when the request failed).
   */
  function AnalyzeParameter(targetURL: string, param: string, value: string, wordlist: seq<string>,
                            options: RequestOptions, send: Request -> Option<(Response, real)>)
    : (r: Result<ResponseFactors, AnalyzeError>)
    ensures r.Success? <==>
              && DoRequest(targetURL, options).Success?
              && send(DoRequest(targetURL, options).value).Some?
              && DoRequest(targetURL, WithParam(options, param, value)).Success?
              && send(DoRequest(targetURL, WithParam(options, param, value)).value).Some?
    ensures r.Success? ==>
              var (resp1, t1) := send(DoRequest(targetURL, options).value).value;
              var (resp2, t2) := send(DoRequest(targetURL, WithParam(options, param, value)).value).value;
              r.value == CompareResponses(resp1, resp2, param, value, wordlist, t1, t2)
  {
    match DoRequest(targetURL, options)
    case Failure(e) => Failure(BuildFailed(e))
    case Success(req1) =>
      match send(req1)
      case None => Failure(SendFailed)
      case Some((resp1, t1)) =>
        match DoRequest(targetURL, WithParam(options, param, value))
        case Failure(e) => Failure(BuildFailed(e))
        case Success(req2) =>
          match send(req2)
          case None => Failure(SendFailed)
          case Some((resp2, t2)) => Success(CompareResponses(resp1, resp2, param, value, wordlist, t1, t2))
  }

  /** A GET probe carries the parameter with the test value in its query. */
  lemma SecondRequestCarriesParam(targetURL: string, param: string, value: string, options: RequestOptions)
    requires ToUpper(options.httpMethod) == "GET"
    ensures DoRequest(targetURL, WithParam(options, param, value)).Success?
    ensures DoRequest(targetURL, WithParam(options, param, value)).value.query[param] == value
  {
  }

  /** The parameter is probed and its factors flag it. */
  predicate Flags(targetURL: string, wordlist: seq<string>, options: RequestOptions,
                  send: Request -> Option<(Response, real)>, param: string) {
    var r := AnalyzeParameter(targetURL, param, TestValue, wordlist, options, send);
    r.Success? && IsFlagged(r.value)
  }

  /**
    BruteForce: the wordlist entries whose analysis succeeds and is flagged.
    The workers' completion order is not modelled; the result keeps wordlist order.
   */
  function BruteForce(targetURL: string, wordlist: seq<string>, options: RequestOptions,
                      send: Request -> Option<(Response, real)>): (found: seq<string>)
    ensures forall p :: p in found <==> p in wordlist && Flags(targetURL, wordlist, options, send, p)
    ensures Subseq(found, wordlist)
    ensures forall p :: multiset(found)[p] == if Flags(targetURL, wordlist, options, send, p) then multiset(wordlist)[p] else 0
  {
    FilterMultiplicity(wordlist, p => Flags(targetURL, wordlist, options, send, p));
    Filter(wordlist, p => Flags(targetURL, wordlist, options, send, p))
  }
}
