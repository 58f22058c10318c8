/**
  Baseline parameter extraction (extractor.go): candidate names are gathered
  from the baseline body (JSON keys, words of short plain-text errors, form
  fields, JavaScript declarations, map keys), then junk is dropped and
  duplicates collapsed in first-occurrence order.
 */
module Extractor {
  import opened Wrappers
  import opened Text
  import opened Seqs
  import opened Http
  import opened Scanners

  /** isNotJunk: `^[A-Za-z0-9_]+$`. */
  predicate IsNotJunk(param: string) {
    IsWord(param)
  }

  /** Every word found by reWords is kept by the junk filter. */
  lemma WordsAreNotJunk(s: string)
    ensures forall w :: w in Words(s) ==> IsNotJunk(w)
  {
  }

  /** Every name the `\w+` declaration pattern captures is kept by the junk filter. */
  lemma DeclaredNamesAreNotJunk(s: string)
    ensures forall w :: w in DeclaredNames(s, false, false) ==> IsNotJunk(w)
  {
  }

  // ---------------------------------------------------------------------------
  // JSON keys

  /**
    A decoded JSON value. Object members are listed in the order the map is
    iterated, which Go leaves unspecified.
   */
  datatype Json =
    | JNull
    | JBool(b: bool)
    | JNumber(n: real)
    | JString(s: string)
    | JArray(items: seq<Json>)
    | JObject(members: seq<(string, Json)>)

  /** extractKeysFromJSON: each member's key followed by the keys inside its value. */
  function ExtractKeys(j: Json): seq<string>
    decreases j, 1, 0
  {
    match j
    case JObject(ms) => MemberKeys(j, 0)
    case JArray(items) => ItemKeys(j, 0)
    case _ => []
  }

  function MemberKeys(j: Json, i: nat): seq<string>
    requires j.JObject? && i <= |j.members|
    decreases j, 0, |j.members| - i
  {
    if i == |j.members| then []
    else
      assert j.members[i] in j.members;
      [j.members[i].0] + ExtractKeys(j.members[i].1) + MemberKeys(j, i + 1)
  }

  function ItemKeys(j: Json, i: nat): seq<string>
    requires j.JArray? && i <= |j.items|
    decreases j, 0, |j.items| - i
  {
    if i == |j.items| then []
    else
      assert j.items[i] in j.items;
      ExtractKeys(j.items[i]) + ItemKeys(j, i + 1)
  }

  /** `k` is the key of some object member anywhere in the tree. */
  predicate HasKey(j: Json, k: string)
    decreases j
  {
    match j
    case JObject(ms) => exists i :: 0 <= i < |ms| && (ms[i].0 == k || (assert ms[i] in ms; HasKey(ms[i].1, k)))
    case JArray(items) => exists i :: 0 <= i < |items| && HasKey(items[i], k)
    case _ => false
  }

  /** The number of object members in the tree. */
  function MemberCount(j: Json): nat
    decreases j, 1, 0
  {
    match j
    case JObject(ms) => MembersCount(j, 0)
    case JArray(items) => ItemsCount(j, 0)
    case _ => 0
  }

  function MembersCount(j: Json, i: nat): nat
    requires j.JObject? && i <= |j.members|
    decreases j, 0, |j.members| - i
  {
    if i == |j.members| then 0
    else
      assert j.members[i] in j.members;
      1 + MemberCount(j.members[i].1) + MembersCount(j, i + 1)
  }

  function ItemsCount(j: Json, i: nat): nat
    requires j.JArray? && i <= |j.items|
    decreases j, 0, |j.items| - i
  {
    if i == |j.items| then 0
    else
      assert j.items[i] in j.items;
      MemberCount(j.items[i]) + ItemsCount(j, i + 1)
  }

  /** One key per object member: the output is as long as the tree has members. */
  lemma {:induction false} ExtractKeysCount(j: Json)
    ensures |ExtractKeys(j)| == MemberCount(j)
    decreases j, 1, 0
  {
    match j
    case JObject(ms) => MemberKeysCount(j, 0);
    case JArray(items) => ItemKeysCount(j, 0);
    case _ =>
  }

  lemma {:induction false} MemberKeysCount(j: Json, i: nat)
    requires j.JObject? && i <= |j.members|
    ensures |MemberKeys(j, i)| == MembersCount(j, i)
    decreases j, 0, |j.members| - i
  {
    if i < |j.members| {
      assert j.members[i] in j.members;
      ExtractKeysCount(j.members[i].1);
      MemberKeysCount(j, i + 1);
    }
  }

  lemma {:induction false} ItemKeysCount(j: Json, i: nat)
    requires j.JArray? && i <= |j.items|
    ensures |ItemKeys(j, i)| == ItemsCount(j, i)
    decreases j, 0, |j.items| - i
  {
    if i < |j.items| {
      assert j.items[i] in j.items;
      ExtractKeysCount(j.items[i]);
      ItemKeysCount(j, i + 1);
    }
  }

  /** A key is extracted exactly when some object member in the tree carries it. */
  lemma {:induction false} ExtractKeysIff(j: Json, k: string)
    ensures k in ExtractKeys(j) <==> HasKey(j, k)
    decreases j, 1, 0
  {
    match j
    case JObject(ms) => MemberKeysIff(j, 0, k);
    case JArray(items) => ItemKeysIff(j, 0, k);
    case _ =>
  }

  lemma {:induction false} MemberKeysIff(j: Json, i: nat, k: string)
    requires j.JObject? && i <= |j.members|
    ensures k in MemberKeys(j, i) <==>
              exists m :: i <= m < |j.members| && (j.members[m].0 == k || HasKey(j.members[m].1, k))
    decreases j, 0, |j.members| - i
  {
    if i < |j.members| {
      assert j.members[i] in j.members;
      ExtractKeysIff(j.members[i].1, k);
      MemberKeysIff(j, i + 1, k);
    }
  }

  lemma {:induction false} ItemKeysIff(j: Json, i: nat, k: string)
    requires j.JArray? && i <= |j.items|
    ensures k in ItemKeys(j, i) <==> exists m :: i <= m < |j.items| && HasKey(j.items[m], k)
    decreases j, 0, |j.items| - i
  {
    if i < |j.items| {
      assert j.items[i] in j.items;
      ExtractKeysIff(j.items[i], k);
      ItemKeysIff(j, i + 1, k);
    }
  }

  // ---------------------------------------------------------------------------
  // ExtractPotentialParams

  /**
    The regular expressions and the JSON decoder applied to the body, given as
    functions: `parseJson` is json.Unmarshal (None when the body is not JSON);
    `inputs`, `emptyVars` and `mapKeys` are the capture groups of reInputs,
    reEmptyVars and reMapKeys, in match order.
   */
  datatype Engines = Engines(
    parseJson: string -> Option<Json>,
    inputs: string -> seq<string>,
    emptyVars: string -> seq<string>,
    mapKeys: string -> seq<string>)

  /** The size limit of a text/plain body that is looked at, in bytes. */
  const PlainTextLimit: nat := 200

  /** A short error message that hints at a missing parameter (on the lower-cased body). */
  predicate Hint(lower: string) {
    && (Contains(lower, "required") || Contains(lower, "missing") || Contains(lower, "not found") || Contains(lower, "requires"))
    && (Contains(lower, "param") || Contains(lower, "parameter") || Contains(lower, "field"))
  }

  /** Since "param" starts "parameter", the "parameter" test adds nothing. */
  lemma HintWithoutParameter(lower: string)
    ensures Hint(lower) <==>
              && (Contains(lower, "required") || Contains(lower, "missing") || Contains(lower, "not found") || Contains(lower, "requires"))
              && (Contains(lower, "param") || Contains(lower, "field"))
  {
    if Contains(lower, "parameter") {
      ContainsOfPrefix(lower, "parameter", "param");
    }
  }

  /**
    The candidates that depend on the Content-Type, and the wordsExist flag
    they set: JSON keys for a body that decodes, or the words and the hint of a
    short plain-text body.
   */
  function TypedCandidates(response: string, contentType: string, eng: Engines): (r: (seq<string>, bool))
    ensures r.0 != [] || r.1 ==>
              (HasPrefix(contentType, "application/json") && eng.parseJson(response).Some?)
              || (!HasPrefix(contentType, "application/json") && HasPrefix(contentType, "text/plain") && ByteLen(response) < PlainTextLimit)
    ensures HasPrefix(contentType, "application/json") && eng.parseJson(response).Some? ==>
              r == (ExtractKeys(eng.parseJson(response).value), ExtractKeys(eng.parseJson(response).value) != [])
    ensures !HasPrefix(contentType, "application/json") && HasPrefix(contentType, "text/plain") && ByteLen(response) < PlainTextLimit ==>
              r == (Words(response), Hint(ToLower(response)))
  {
    if HasPrefix(contentType, "application/json") then
      match eng.parseJson(response)
      case Some(data) =>
        var keys := ExtractKeys(data);
        (keys, |keys| > 0)
      case None => ([], false)
    else if HasPrefix(contentType, "text/plain") && ByteLen(response) < PlainTextLimit then
      (Words(response), Hint(ToLower(response)))
    else ([], false)
  }

  /** Every candidate, in the order ExtractPotentialParams appends them. */
  function Candidates(response: string, contentType: string, eng: Engines): (r: seq<string>)
    ensures var typed := TypedCandidates(response, contentType, eng).0;
      |r| == |typed| + |eng.inputs(response)| + |DeclaredNames(response, false, false)| + |eng.emptyVars(response)| + |eng.mapKeys(response)|
    ensures forall x :: x in r <==>
              || x in TypedCandidates(response, contentType, eng).0
              || x in eng.inputs(response)
              || x in DeclaredNames(response, false, false)
              || x in eng.emptyVars(response)
              || x in eng.mapKeys(response)
  {
    TypedCandidates(response, contentType, eng).0
      + eng.inputs(response)
      + DeclaredNames(response, false, false)
      + eng.emptyVars(response)
      + eng.mapKeys(response)
  }
  /** Every name a script declares is a candidate, whatever the Content-Type. */
  lemma CandidatesHaveScriptNames(ds: seq<Decl>, contentType: string, eng: Engines)
    requires forall i :: 0 <= i < |ds| ==> ValidDecl(ds[i], false)
    ensures forall i :: 0 <= i < |ds| ==> ds[i].name in Candidates(Script(ds), contentType, eng)
  {
    DeclaredNamesOfScript(ds, false);
    forall i | 0 <= i < |ds| ensures ds[i].name in DeclaredNames(Script(ds), false, false) {
      assert DeclNames(ds)[i] == ds[i].name;
    }
  }


  /**
    ExtractPotentialParams: the candidates that pass isNotJunk, each once, in
    the order of their first occurrence; wordsExist holds whenever any is found.
   */
  function ExtractPotentialParams(response: string, header: Header, eng: Engines): (r: (seq<string>, bool))
    ensures NoDups(r.0)
    ensures forall x :: x in r.0 <==> x in Candidates(response, HeaderGet(header, "Content-Type"), eng) && IsNotJunk(x)
    ensures forall i, j :: 0 <= i < j < |r.0| ==>
              FirstIndex(Candidates(response, HeaderGet(header, "Content-Type"), eng), r.0[i])
                < FirstIndex(Candidates(response, HeaderGet(header, "Content-Type"), eng), r.0[j])
    ensures r.0 != [] ==> r.1
    ensures r.1 <==> r.0 != [] || TypedCandidates(response, HeaderGet(header, "Content-Type"), eng).1
  {
    var ct := HeaderGet(header, "Content-Type");
    var candidates := Candidates(response, ct, eng);
    var kept := Filter(candidates, IsNotJunk);
    var result := Dedup(kept);
    FilterDedup(candidates, result);
    (result, TypedCandidates(response, ct, eng).1 || |result| > 0)
  }

  /** Junk filtering then deduplication keeps the kept candidates, in first-occurrence order. */
  lemma FilterDedup(candidates: seq<string>, result: seq<string>)
    requires result == Dedup(Filter(candidates, IsNotJunk))
    ensures forall x :: x in result <==> x in candidates && IsNotJunk(x)
    ensures forall i, j :: 0 <= i < j < |result| ==> FirstIndex(candidates, result[i]) < FirstIndex(candidates, result[j])
  {
    var kept := Filter(candidates, IsNotJunk);
    forall x
      ensures x in result <==> x in kept
    {
      assert x in result <==> x in Elems(result);
      assert x in kept <==> x in Elems(kept);
    }
    DedupFirstOccurrenceOrder(kept);
    forall i, j | 0 <= i < j < |result|
      ensures FirstIndex(candidates, result[i]) < FirstIndex(candidates, result[j])
    {
      FilterFirstIndexOrder(candidates, IsNotJunk, result[i], result[j]);
    }
  }

  /** A JSON body's keys are candidates only when the Content-Type says JSON. */
  lemma JsonKeysNeedJsonType(response: string, header: Header, eng: Engines)
    requires !HasPrefix(HeaderGet(header, "Content-Type"), "application/json")
    requires !HasPrefix(HeaderGet(header, "Content-Type"), "text/plain")
    ensures Candidates(response, HeaderGet(header, "Content-Type"), eng)
              == eng.inputs(response) + DeclaredNames(response, false, false) + eng.emptyVars(response) + eng.mapKeys(response)
    ensures !ExtractPotentialParams(response, header, eng).1 <==> ExtractPotentialParams(response, header, eng).0 == []
  {
    var ct := HeaderGet(header, "Content-Type");
    assert TypedCandidates(response, ct, eng) == ([], false);
    assert [] + eng.inputs(response) == eng.inputs(response);
  }

  /** ExtractParamsFromBaseline: fails when the body cannot be read. */
  function ExtractParamsFromBaseline(resp: Response, eng: Engines): (r: Result<(seq<string>, bool), ()>)
    ensures r.Success? <==> resp.body.Some?
    ensures r.Success? ==> r.value == ExtractPotentialParams(resp.body.value, resp.header, eng)
  {
    match resp.body
    case None => Failure(())
    case Some(body) => Success(ExtractPotentialParams(body, resp.header, eng))
  }
}
