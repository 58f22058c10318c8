/**
  The `miner` command (cmd/Param_miner/mine.go): the -H and -d options are
  parsed into maps, and for each target the baseline response seeds the
  wordlist before the scoring brute force runs.
 */
module MineCommand {
  import opened Wrappers
  import opened Text
  import opened Seqs
  import opened Http
  import opened Requests
  import Utils
  import Extractor
  import Bruter

  // ---------------------------------------------------------------------------
  // "k1:v1,k2:v2" options

  /** One "key:value" pair: kept when it splits on ':' into exactly two parts, both then trimmed. */
  function ParsePair(pair: string): (e: Option<(string, string)>)
    ensures e.Some? <==> |Split(pair, ':')| == 2
    ensures e.Some? ==> TrimSpace(e.value.0) == e.value.0 && TrimSpace(e.value.1) == e.value.1
    ensures e.Some? ==> ':' !in e.value.0 && ':' !in e.value.1
  {
    var parts := Split(pair, ':');
    if |parts| == 2 then
      TrimSpaceIdempotent(parts[0]);
      TrimSpaceIdempotent(parts[1]);
      TrimSpaceShorter(parts[0]);
      TrimColonFree(parts[0]);
      TrimColonFree(parts[1]);
      Some((TrimSpace(parts[0]), TrimSpace(parts[1])))
    else None
  }

  /** Trimming cuts a piece out of the text, so it brings in no ':'. */
  lemma TrimColonFree(t: string)
    requires ':' !in t
    ensures ':' !in TrimSpace(t)
  {
    var k :| TrimmedAt(t, TrimSpace(t), k);
  }

  /**
    The key and the value are trimmed before they are stored: white space
    around either side of the ':' is dropped, and nothing else is.
   */
  lemma ParsePairPadded(a: string, key: string, b: string, c: string, value: string, d: string)
    requires AllSpace(a) && AllSpace(b) && AllSpace(c) && AllSpace(d)
    requires ':' !in key && ':' !in value
    requires TrimSpace(key) == key && TrimSpace(value) == value
    ensures ParsePair((a + key + b) + ":" + (c + value + d)) == Some((key, value))
  {
    var x := a + key + b;
    var y := c + value + d;
    assert ':' !in x by {
      SpaceColonFree(a);
      SpaceColonFree(b);
    }
    assert ':' !in y by {
      SpaceColonFree(c);
      SpaceColonFree(d);
    }
    assert TrimSpace(x) == key by {
      TrimSpacePadded(a, key, b);
    }
    assert TrimSpace(y) == value by {
      TrimSpacePadded(c, value, d);
    }
    ParsePairOf(x, y);
  }

  lemma ParsePairOf(x: string, y: string)
    requires ':' !in x && ':' !in y
    ensures ParsePair(x + ":" + y) == Some((TrimSpace(x), TrimSpace(y)))
  {
    SplitPair(x, y);
  }

  lemma SpaceColonFree(t: string)
    requires AllSpace(t)
    ensures ':' !in t
  {
  }

  /** Two ':'-free sides joined by one ':' split back into the two sides. */
  lemma SplitPair(x: string, y: string)
    requires ':' !in x && ':' !in y
    ensures Split(x + ":" + y, ':') == [x, y]
  {
    JoinFirst([x, y], ':');
    assert Join([x, y], ':') == x + ":" + y;
    SplitJoin([x, y], ':');
  }

  function Entries(pairs: seq<string>): (es: seq<Option<(string, string)>>)
    ensures |es| == |pairs|
    ensures forall i :: 0 <= i < |pairs| ==> es[i] == ParsePair(pairs[i])
  {
    seq(|pairs|, i requires 0 <= i < |pairs| => ParsePair(pairs[i]))
  }

  /** The loop over the first `n` entries: each kept pair sets its key to its value. */
  function PairsMap(es: seq<Option<(string, string)>>, n: nat): (m: map<string, string>)
    requires n <= |es|
    ensures forall k :: k in m <==> exists i :: 0 <= i < n && es[i].Some? && es[i].value.0 == k
  {
    if n == 0 then map[]
    else
      var m := PairsMap(es, n - 1);
      var r := if es[n - 1].Some? then m[es[n - 1].value.0 := es[n - 1].value.1] else m;
      PairsMapKeys(es, n, m, r);
      r
  }

  lemma PairsMapKeys(es: seq<Option<(string, string)>>, n: nat, m: map<string, string>, r: map<string, string>)
    requires 0 < n <= |es|
    requires forall k :: k in m <==> exists i :: 0 <= i < n - 1 && es[i].Some? && es[i].value.0 == k
    requires r == if es[n - 1].Some? then m[es[n - 1].value.0 := es[n - 1].value.1] else m
    ensures forall k :: k in r <==> exists i :: 0 <= i < n && es[i].Some? && es[i].value.0 == k
  {
    forall k
      ensures k in r <==> exists i :: 0 <= i < n && es[i].Some? && es[i].value.0 == k
    {
      if exists i :: 0 <= i < n && es[i].Some? && es[i].value.0 == k {
        var i :| 0 <= i < n && es[i].Some? && es[i].value.0 == k;
        if i < n - 1 {
          assert k in m;
        }
      }
    }
  }

  /**
    The header and data parsers of mine.go: the input split on ',' and each
    pair folded into a map. An empty input skips the loop; it would give the
    empty map anyway, since "" is not a pair.
   */
  function ParsePairs(s: string): (m: map<string, string>)
    ensures s == "" ==> m == map[]
    ensures PairsMap(Entries(Split(s, ',')), |Split(s, ',')|) == m
  {
    if s == "" then
      assert Split(s, ',') == [""];
      assert Split("", ':') == [""];
      map[]
    else PairsMap(Entries(Split(s, ',')), |Split(s, ',')|)
  }

  /** When a key repeats, the last kept pair that carries it decides its value. */
  lemma {:induction false} LastPairWins(es: seq<Option<(string, string)>>, n: nat, i: nat)
    requires i < n <= |es| && es[i].Some?
    requires forall j :: i < j < n && es[j].Some? ==> es[j].value.0 != es[i].value.0
    ensures es[i].value.0 in PairsMap(es, n)
    ensures PairsMap(es, n)[es[i].value.0] == es[i].value.1
  {
    if i < n - 1 {
      LastPairWins(es, n - 1, i);
    }
  }

  /** A value that itself holds a ':' makes three parts or more, so the pair is dropped. */
  lemma ColonInValueDropped(key: string, value: string)
    requires ':' !in key && ':' in value
    ensures ParsePair(key + ":" + value).None?
  {
    Utils.SplitConcat(key, value, ':');
    SplitJoin([key], ':');
    var vs := Split(value, ':');
    assert key + ":" + value == key + [':'] + value;
  }

  /** One "k:v" pair as written on the command line. */
  function PairText(k: string, v: string): string {
    k + ":" + v
  }

  predicate Plain(t: string) {
    ',' !in t && ':' !in t && TrimSpace(t) == t
  }

  lemma PairTextSplits(k: string, v: string)
    requires Plain(k) && Plain(v)
    ensures Split(PairText(k, v), ':') == [k, v]
    ensures ParsePair(PairText(k, v)) == Some((k, v))
  {
    JoinFirst([k, v], ':');
    assert Join([k, v], ':') == PairText(k, v);
    SplitJoin([k, v], ':');
  }

  function PairTexts(keys: seq<string>, values: seq<string>): (ps: seq<string>)
    requires |keys| == |values|
    ensures |ps| == |keys|
    ensures forall i :: 0 <= i < |keys| ==> ps[i] == PairText(keys[i], values[i])
  {
    seq(|keys|, i requires 0 <= i < |keys| => PairText(keys[i], values[i]))
  }

  /**
    Round trip: writing distinct plain keys with plain values as
    "k1:v1,k2:v2,..." and parsing the text gives back exactly those pairs.
   */
  lemma ParsePairsRoundTrip(keys: seq<string>, values: seq<string>)
    requires |keys| == |values| && |keys| > 0
    requires NoDups(keys)
    requires forall i :: 0 <= i < |keys| ==> Plain(keys[i]) && Plain(values[i])
    ensures ParsePairs(Join(PairTexts(keys, values), ',')).Keys == Elems(keys)
    ensures forall i :: 0 <= i < |keys| ==> ParsePairs(Join(PairTexts(keys, values), ','))[keys[i]] == values[i]
  {
    var ps := PairTexts(keys, values);
    PairTextsSplit(keys, values);
    SplitJoin(ps, ',');
    EntriesOfPairTexts(keys, values);
    PairsMapOfDistinct(Entries(ps), keys, values);
  }

  lemma PairTextsSplit(keys: seq<string>, values: seq<string>)
    requires |keys| == |values|
    requires forall i :: 0 <= i < |keys| ==> Plain(keys[i]) && Plain(values[i])
    ensures forall i :: 0 <= i < |keys| ==> ',' !in PairTexts(keys, values)[i]
  {
  }

  lemma EntriesOfPairTexts(keys: seq<string>, values: seq<string>)
    requires |keys| == |values|
    requires forall i :: 0 <= i < |keys| ==> Plain(keys[i]) && Plain(values[i])
    ensures forall i :: 0 <= i < |keys| ==> Entries(PairTexts(keys, values))[i] == Some((keys[i], values[i]))
  {
    forall i | 0 <= i < |keys|
      ensures Entries(PairTexts(keys, values))[i] == Some((keys[i], values[i]))
    {
      PairTextSplits(keys[i], values[i]);
    }
  }

  lemma PairsMapOfDistinct(es: seq<Option<(string, string)>>, keys: seq<string>, values: seq<string>)
    requires |es| == |keys| == |values|
    requires NoDups(keys)
    requires forall i :: 0 <= i < |es| ==> es[i] == Some((keys[i], values[i]))
    ensures PairsMap(es, |es|).Keys == Elems(keys)
    ensures forall i :: 0 <= i < |keys| ==> PairsMap(es, |es|)[keys[i]] == values[i]
  {
    var m := PairsMap(es, |es|);
    forall k
      ensures k in m <==> k in Elems(keys)
    {
      if k in m {
        var i :| 0 <= i < |es| && es[i].Some? && es[i].value.0 == k;
        assert keys[i] == k;
      }
      if k in Elems(keys) {
        var i :| 0 <= i < |keys| && keys[i] == k;
        assert es[i].Some? && es[i].value.0 == k;
      }
    }
    forall i | 0 <= i < |keys|
      ensures m[keys[i]] == values[i]
    {
      LastPairWins(es, |es|, i);
    }
  }

  /** A join of pieces whose first piece is non-empty is non-empty. */
  lemma JoinNonEmpty(ps: seq<string>)
    requires |ps| > 0 && |ps[0]| > 0
    ensures Join(ps, ',') != ""
  {
    if |ps| > 1 {
      JoinFirst(ps, ',');
    }
  }

  // ---------------------------------------------------------------------------
  // The per-target loop

  /** The options of the miner command that reach the requests. */
  datatype MinerConfig = MinerConfig(httpMethod: string, headers: string, data: string)

  function Options(cfg: MinerConfig): (o: RequestOptions)
    ensures o.httpMethod == cfg.httpMethod
    ensures cfg.headers == "" ==> o.headers == map[]
    ensures cfg.data == "" ==> o.data == map[]
  {
    RequestOptions(cfg.httpMethod, ParsePairs(cfg.headers), ParsePairs(cfg.data))
  }

  /**
    The wordlist after the baseline step: the extracted names are merged in
    front only when extraction succeeded and reported that words exist.
   */
  function MergeExtracted(extracted: Result<(seq<string>, bool), ()>, wordlist: seq<string>): (w: seq<string>)
    ensures Elems(wordlist) <= Elems(w)
    ensures extracted.Success? && extracted.value.1 ==>
              w == Utils.MergeUnique(extracted.value.0, wordlist)
              && Elems(w) == Elems(extracted.value.0) + Elems(wordlist)
              && Dedup(extracted.value.0) <= w
    ensures !(extracted.Success? && extracted.value.1) ==> w == wordlist
  {
    if extracted.Success? && extracted.value.1 then Utils.MergeUnique(extracted.value.0, wordlist)
    else wordlist
  }

  datatype Outcome = Skipped | Mined(found: seq<string>)

  /**
    One iteration of the target loop: the baseline request (a failure skips the
    target), the merge of the extracted names, then the brute force over the
    merged wordlist. The wordlist carried to the next target is returned.
   */
  function MineTarget(target: string, wordlist: seq<string>, cfg: MinerConfig, eng: Extractor.Engines,
                      send: Request -> Option<(Response, real)>): (r: (seq<string>, Outcome))
    ensures Elems(wordlist) <= Elems(r.0)
    ensures r.1.Skipped? <==> DoRequest(target, Options(cfg)).Failure? || send(DoRequest(target, Options(cfg)).value).None?
    ensures r.1.Skipped? ==> r.0 == wordlist
    ensures r.1.Mined? ==>
              var baseline := send(DoRequest(target, Options(cfg)).value).value.0;
              r.0 == MergeExtracted(Extractor.ExtractParamsFromBaseline(baseline, eng), wordlist)
    ensures r.1.Mined? ==> r.1.found == Bruter.BruteForce(target, r.0, Options(cfg), send)
    ensures r.1.Mined? ==> forall p :: p in r.1.found ==> p in r.0
  {
    var options := Options(cfg);
    match DoRequest(target, options)
    case Failure(_) => (wordlist, Skipped)
    case Success(req) =>
      match send(req)
      case None => (wordlist, Skipped)
      case Some((baseline, _)) =>
        var merged := MergeExtracted(Extractor.ExtractParamsFromBaseline(baseline, eng), wordlist);
        (merged, Mined(Bruter.BruteForce(target, merged, options, send)))
  }

  /**
    Execute: the targets in order, each mined with the wordlist as the earlier
    targets left it.
   */
  function Execute(targets: seq<string>, wordlist: seq<string>, cfg: MinerConfig, eng: Extractor.Engines,
                   send: Request -> Option<(Response, real)>): (r: (seq<Outcome>, seq<string>))
    ensures |r.0| == |targets|
    ensures Elems(wordlist) <= Elems(r.1)
    ensures forall i :: 0 <= i < |targets| && r.0[i].Mined? ==> forall p :: p in r.0[i].found ==> p in r.1
    decreases |targets|
  {
    if |targets| == 0 then ([], wordlist)
    else
      var (w, o) := MineTarget(targets[0], wordlist, cfg, eng, send);
      var (rest, final) := Execute(targets[1..], w, cfg, eng, send);
      assert forall p :: p in w ==> p in Elems(w);
      ([o] + rest, final)
  }

  /** The state after the first `n` targets when each target maps the state by `step`. */
  function Fold<S>(targets: seq<string>, s0: S, n: nat, step: (string, S) -> S): S
    requires n <= |targets|
  {
    if n == 0 then s0 else step(targets[n - 1], Fold(targets, s0, n - 1, step))
  }

  /** Taking the first target, then `i` more, is taking `i + 1` targets. */
  lemma {:induction false} FoldShift<S>(targets: seq<string>, s0: S, i: nat, step: (string, S) -> S)
    requires i < |targets|
    ensures Fold(targets, s0, i + 1, step) == Fold(targets[1..], step(targets[0], s0), i, step)
  {
    if i > 0 {
      FoldShift(targets, s0, i - 1, step);
      assert targets[1..][i - 1] == targets[i];
    }
  }

  /** How one target changes the wordlist. */
  function Carry(cfg: MinerConfig, eng: Extractor.Engines, send: Request -> Option<(Response, real)>): (string, seq<string>) -> seq<string> {
    (target, wordlist) => MineTarget(target, wordlist, cfg, eng, send).0
  }

  /**
    The wordlist once the first `n` targets have been mined: an independent,
    left-to-right reading of the loop.
   */
  function WordlistAfter(targets: seq<string>, wordlist: seq<string>, n: nat, cfg: MinerConfig, eng: Extractor.Engines,
                         send: Request -> Option<(Response, real)>): seq<string>
    requires n <= |targets|
  {
    Fold(targets, wordlist, n, Carry(cfg, eng, send))
  }

  /**
    Execute runs the loop in order: outcome `i` is that of target `i` mined
    with the wordlist the first `i` targets left, and the final wordlist is
    the one after all of them.
   */
  lemma {:induction false} ExecuteInOrder(targets: seq<string>, wordlist: seq<string>, cfg: MinerConfig, eng: Extractor.Engines,
                                          send: Request -> Option<(Response, real)>)
    ensures forall i :: 0 <= i < |targets| ==>
              Execute(targets, wordlist, cfg, eng, send).0[i]
                == MineTarget(targets[i], WordlistAfter(targets, wordlist, i, cfg, eng, send), cfg, eng, send).1
    ensures Execute(targets, wordlist, cfg, eng, send).1 == WordlistAfter(targets, wordlist, |targets|, cfg, eng, send)
    decreases |targets|
  {
    if |targets| > 0 {
      var w1 := MineTarget(targets[0], wordlist, cfg, eng, send).0;
      ExecuteInOrder(targets[1..], w1, cfg, eng, send);
      forall i | 0 <= i <= |targets| - 1
        ensures WordlistAfter(targets, wordlist, i + 1, cfg, eng, send) == WordlistAfter(targets[1..], w1, i, cfg, eng, send)
      {
        FoldShift(targets, wordlist, i, Carry(cfg, eng, send));
      }
      var r := Execute(targets, wordlist, cfg, eng, send);
      var rest := Execute(targets[1..], w1, cfg, eng, send);
      assert r.0 == [MineTarget(targets[0], wordlist, cfg, eng, send).1] + rest.0;
      forall i | 0 < i < |targets|
        ensures r.0[i] == MineTarget(targets[i], WordlistAfter(targets, wordlist, i, cfg, eng, send), cfg, eng, send).1
      {
        assert r.0[i] == rest.0[i - 1];
        assert targets[1..][i - 1] == targets[i];
      }
    }
  }
}
