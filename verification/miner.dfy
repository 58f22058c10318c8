/**
  The single-signal variant of the parameter miner (miner.go): the "missing"
  rules look only at the second body, and any one signal flags a parameter.
 */
module Miner {
  import opened Wrappers
  import opened Text
  import opened Seqs
  import opened Http
  import opened Requests
  import Bruter

  const TestValue: string := "test-value"

  /** compareResponses: the common factors, with "missing" meaning absent from the second body. */
  function CompareResponses(r1: Response, r2: Response, param: string, value: string,
                            wordlist: seq<string>, time1: real, time2: real): (f: ResponseFactors)
    ensures f == CommonFactors(r1, r2, time1, time2).(paramMissing := f.paramMissing, valueMissing := f.valueMissing)
    ensures f.paramMissing == [] || f.paramMissing == wordlist
    ensures f.paramMissing != [] ==> r1.body.Some? && r2.body.Some? && !Contains(r2.body.value, param)
    ensures r1.body.Some? && r2.body.Some? && !Contains(r2.body.value, param) ==> f.paramMissing == wordlist
    ensures f.valueMissing <==> r1.body.Some? && r2.body.Some? && !Contains(r2.body.value, value)
  {
    var f := CommonFactors(r1, r2, time1, time2);
    if r1.body.None? || r2.body.None? then f
    else
      var b2 := r2.body.value;
      f.(paramMissing := if !Contains(b2, param) then wordlist else [],
         valueMissing := !Contains(b2, value))
  }

  /** The flag rule of BruteForce: any single signal, with a signed length test. */
  predicate IsFlagged(f: ResponseFactors) {
    f.valueMissing || |f.paramMissing| > 0 || f.responseTimeDiff > 1.0 || f.contentLengthDiff > 100
  }

  /** A second body that lacks the value always flags the parameter. */
  lemma MissingValueFlags(r1: Response, r2: Response, param: string, value: string,
                          wordlist: seq<string>, time1: real, time2: real)
    requires r1.body.Some? && r2.body.Some? && !Contains(r2.body.value, value)
    ensures IsFlagged(CompareResponses(r1, r2, param, value, wordlist, time1, time2))
  {
  }

  /** A response that shrinks by more than 100 bytes is not flagged on length. */
  lemma ShrinkDoesNotFlagOnLength(f: ResponseFactors)
    requires f.contentLengthDiff < -100
    ensures IsFlagged(f) <==> f.valueMissing || |f.paramMissing| > 0 || f.responseTimeDiff > 1.0
  {
  }

  /** Unreadable bodies leave only the status and header comparisons, which never flag. */
  lemma UnreadBodyNotFlagged(r1: Response, r2: Response, param: string, value: string,
                             wordlist: seq<string>, time1: real, time2: real)
    requires r1.body.None? || r2.body.None?
    ensures !IsFlagged(CompareResponses(r1, r2, param, value, wordlist, time1, time2))
  {
  }

  /**
    The variants disagree: two identical empty bodies, both lacking the test
    value, are flagged here and not by the scoring variant.
   */
  lemma VariantsDisagree(header: Header)
    ensures var r := Response(200, header, Some(""));
            && IsFlagged(CompareResponses(r, r, "q", TestValue, ["q"], 0.5, 0.5))
            && !Bruter.IsFlagged(Bruter.CompareResponses(r, r, "q", TestValue, ["q"], 0.5, 0.5))
  {
    var r := Response(200, header, Some(""));
    assert !Contains("", TestValue);
    Bruter.IdenticalBodiesNotFlagged(r, r, "q", TestValue, ["q"], 0.5, 0.5);
  }

  /**
    Define: the baseline request, the request with the parameter set, and
    their comparison. makeRequest builds the same requests as DoRequest.
   */
  function Define(targetURL: string, param: string, value: string, wordlist: seq<string>,
                  options: RequestOptions, send: Request -> Option<(Response, real)>)
    : (r: Result<ResponseFactors, Bruter.AnalyzeError>)
    ensures r.Success? <==>
              && DoRequest(targetURL, options).Success?
              && send(DoRequest(targetURL, options).value).Some?
              && DoRequest(targetURL, Bruter.WithParam(options, param, value)).Success?
              && send(DoRequest(targetURL, Bruter.WithParam(options, param, value)).value).Some?
    ensures r.Success? ==>
              var (resp1, t1) := send(DoRequest(targetURL, options).value).value;
              var (resp2, t2) := send(DoRequest(targetURL, Bruter.WithParam(options, param, value)).value).value;
              r.value == CompareResponses(resp1, resp2, param, value, wordlist, t1, t2)
  {
    match DoRequest(targetURL, options)
    case Failure(e) => Failure(Bruter.BuildFailed(e))
    case Success(req1) =>
      match send(req1)
      case None => Failure(Bruter.SendFailed)
      case Some((resp1, t1)) =>
        match DoRequest(targetURL, Bruter.WithParam(options, param, value))
        case Failure(e) => Failure(Bruter.BuildFailed(e))
        case Success(req2) =>
          match send(req2)
          case None => Failure(Bruter.SendFailed)
          case Some((resp2, t2)) => Success(CompareResponses(resp1, resp2, param, value, wordlist, t1, t2))
  }

  predicate Flags(targetURL: string, wordlist: seq<string>, options: RequestOptions,
                  send: Request -> Option<(Response, real)>, param: string) {
    var r := Define(targetURL, param, TestValue, wordlist, options, send);
    r.Success? && IsFlagged(r.value)
  }

  /** BruteForce: the wordlist entries whose comparison succeeds and flags, in wordlist order. */
  function BruteForce(targetURL: string, wordlist: seq<string>, options: RequestOptions,
                      send: Request -> Option<(Response, real)>): (found: seq<string>)
    ensures forall p :: p in found <==> p in wordlist && Flags(targetURL, wordlist, options, send, p)
    ensures Subseq(found, wordlist)
    ensures forall p :: multiset(found)[p] == if Flags(targetURL, wordlist, options, send, p) then multiset(wordlist)[p] else 0
  {
    FilterMultiplicity(wordlist, p => Flags(targetURL, wordlist, options, send, p));
    Filter(wordlist, p => Flags(targetURL, wordlist, options, send, p))
  }

  /**
    A probed parameter whose second response is read but lacks the test value
    is reported.
   */
  lemma UnreflectedValueReported(targetURL: string, wordlist: seq<string>, options: RequestOptions,
                                 send: Request -> Option<(Response, real)>, param: string)
    requires param in wordlist
    requires Define(targetURL, param, TestValue, wordlist, options, send).Success?
    requires var r1 := send(DoRequest(targetURL, options).value).value.0;
             var r2 := send(DoRequest(targetURL, Bruter.WithParam(options, param, TestValue)).value).value.0;
             r1.body.Some? && r2.body.Some? && !Contains(r2.body.value, TestValue)
    ensures param in BruteForce(targetURL, wordlist, options, send)
  {
    var (resp1, t1) := send(DoRequest(targetURL, options).value).value;
    var (resp2, t2) := send(DoRequest(targetURL, Bruter.WithParam(options, param, TestValue)).value).value;
    MissingValueFlags(resp1, resp2, param, TestValue, wordlist, t1, t2);
  }
}
