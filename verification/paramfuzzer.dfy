/**
  The reflected-parameter fuzzer: each wordlist line is appended to the target
  as `param=symbol`, and a URL is reported when the symbol shows up in the
  first chunk of the response body.
 */
module ParamFuzzer {
  import opened Wrappers
  import opened Text
  import opened Seqs

  /** The query separator to use: '&' when the target already has a query. */
  function Separator(targetURL: string): char {
    if '?' in targetURL then '&' else '?'
  }

  /** addParamToURL: the target, the separator, then `param=symbol` inserted verbatim. */
  function AddParamToURL(targetURL: string, param: string, symbol: string): (u: string)
    ensures HasPrefix(u, targetURL)
    ensures '?' in u
    ensures |u| == |targetURL| + |param| + |symbol| + 2
    ensures u[|targetURL|] == '&' <==> '?' in targetURL
    ensures u[|targetURL| + 1..] == param + "=" + symbol
  {
    var u := targetURL + [Separator(targetURL)] + param + "=" + symbol;
    assert u[|targetURL|] == Separator(targetURL);
    assert u[|targetURL| + 1..] == param + "=" + symbol;
    u
  }

  /**
    A target without a query gets one: cutting the result at its first '?'
    gives back the target and the added `param=symbol`.
   */
  lemma AddParamToURLSplits(targetURL: string, param: string, symbol: string)
    requires '?' !in targetURL
    ensures SeparatorIndex(AddParamToURL(targetURL, param, symbol), '?') == |targetURL|
    ensures AddParamToURL(targetURL, param, symbol)[..|targetURL|] == targetURL
  {
    var u := AddParamToURL(targetURL, param, symbol);
    var k := SeparatorIndex(u, '?');
    assert u[..|targetURL|] == targetURL;
    assert u[|targetURL|] == '?';
    assert k <= |targetURL| ==> u[..k] == targetURL[..k];
  }

  /** The size of the buffer of the single Read that isReflected makes. */
  const ReadBufferSize: nat := 1024

  function Min(a: nat, b: nat): nat {
    if a <= b then a else b
  }

  /** The bytes that a Read into the buffer can hold at most. */
  function Window(body: seq<byte>): seq<byte> {
    body[..Min(ReadBufferSize, |body|)]
  }

  /**
    isReflected: one Read of `readLen` bytes (whatever the connection delivered
    at once) into a 1024-byte buffer, then a substring test for the symbol's bytes.
   */
  function IsReflected(body: seq<byte>, readLen: nat, symbol: string): (b: bool)
    ensures b ==> Contains(Window(body), Utf8(symbol))
    ensures symbol == [] ==> b
  {
    var n := Min(readLen, Min(ReadBufferSize, |body|));
    ReadPrefix(body, n, symbol);
    Contains(body[..n], Utf8(symbol))
  }

  lemma ReadPrefix(body: seq<byte>, n: nat, symbol: string)
    requires n <= Min(ReadBufferSize, |body|)
    ensures Contains(body[..n], Utf8(symbol)) ==> Contains(Window(body), Utf8(symbol))
    ensures symbol == [] ==> Contains(body[..n], Utf8(symbol))
  {
    if Contains(body[..n], Utf8(symbol)) {
      assert body[..n] == Window(body)[..n];
      ContainsPrefixOf(Window(body), n, Utf8(symbol));
    }
    if symbol == [] {
      assert Utf8(symbol) == [];
      ContainsEmpty(body[..n]);
    }
  }

  /** A symbol that occurs only past the first 1024 bytes is never seen. */
  lemma LateSymbolMissed(body: seq<byte>, readLen: nat, symbol: string)
    requires !Contains(Window(body), Utf8(symbol))
    ensures !IsReflected(body, readLen, symbol)
  {
  }

  /** When the Read fills the buffer (or takes the whole body), the test is exactly containment in the window. */
  lemma FullReadDecides(body: seq<byte>, readLen: nat, symbol: string)
    requires readLen >= Min(ReadBufferSize, |body|)
    ensures IsReflected(body, readLen, symbol) <==> Contains(Window(body), Utf8(symbol))
  {
  }

  /** A probe of `url`: the response body and the number of bytes the single Read returned. */
  predicate Reflects(get: string -> Option<(seq<byte>, nat)>, url: string, symbol: string) {
    get(url).Some? && IsReflected(get(url).value.0, get(url).value.1, symbol)
  }

  function ProbeURLs(targetURL: string, params: seq<string>, symbol: string): (urls: seq<string>)
    ensures |urls| == |params|
    ensures forall i :: 0 <= i < |params| ==> urls[i] == AddParamToURL(targetURL, params[i], symbol)
  {
    seq(|params|, i requires 0 <= i < |params| => AddParamToURL(targetURL, params[i], symbol))
  }

  /**
    FuzzParameters: the probe URLs, one per wordlist line, whose responses
    reflect the symbol. `get` is the outcome of http.Get (None on error).
   */
  function FuzzParameters(targetURL: string, params: seq<string>, symbol: string,
                          get: string -> Option<(seq<byte>, nat)>): (found: seq<string>)
    ensures |found| <= |params|
    ensures forall u :: u in found <==> u in ProbeURLs(targetURL, params, symbol) && Reflects(get, u, symbol)
    ensures forall u :: u in found ==> exists i :: 0 <= i < |params| && u == AddParamToURL(targetURL, params[i], symbol)
    ensures forall u :: multiset(found)[u] == if Reflects(get, u, symbol) then multiset(ProbeURLs(targetURL, params, symbol))[u] else 0
  {
    var urls := ProbeURLs(targetURL, params, symbol);
    FilterMultiplicity(urls, u => Reflects(get, u, symbol));
    Filter(urls, u => Reflects(get, u, symbol))
  }
}
