/** config/config.go: URL validation, the target check of the Load*Config functions, and result de-duplication. */
module Config {
  import opened Wrappers
  import opened Text
  import Seqs

  /** validateURL: the URL must start with "http://" or "https://", case-sensitively. */
  predicate ValidateURL(url: string) {
    HasPrefix(url, "http://") || HasPrefix(url, "https://")
  }

  /** The scheme of a URL: the text before the first ':' when that ':' begins "://". */
  function SchemeOf(url: string): (r: Option<string>)
    ensures r.Some? ==> ':' !in r.value && HasPrefix(url, r.value + "://")
  {
    var k := SeparatorIndex(url, ':');
    if HasPrefix(url[k..], "://") then
      assert url == url[..k] + url[k..];
      Some(url[..k])
    else None
  }

  /** A URL is accepted exactly when its scheme is "http" or "https". */
  lemma ValidateURLScheme(url: string)
    ensures ValidateURL(url) <==> SchemeOf(url) == Some("http") || SchemeOf(url) == Some("https")
  {
    if HasPrefix(url, "http://") {
      assert url == "http" + [':'] + url[5..];
      FirstSeparator("http", url[5..], ':');
      assert url[4..][..3] == "://";
      assert url[..4] == "http";
    } else if HasPrefix(url, "https://") {
      assert url == "https" + [':'] + url[6..];
      FirstSeparator("https", url[6..], ':');
      assert url[5..][..3] == "://";
      assert url[..5] == "https";
    }
  }

  /** The prefix test is case-sensitive: an accepted URL starts with lower-case "http", so no upper-case start is accepted. */
  lemma ValidateURLIsCaseSensitive(url: string)
    ensures ValidateURL(url) ==> HasPrefix(url, "http")
    ensures url != [] && 'A' <= url[0] <= 'Z' ==> !ValidateURL(url)
  {
    if ValidateURL(url) {
      assert url[0] == 'h';
      assert url[..4] == "http";
    }
  }

  datatype ConfigError = MissingTarget | InvalidScheme

  /**
    The check every Load*Config performs after flag parsing: a target URL or a
    target-list file is required, and a given target URL must be http(s).
   */
  function CheckTargets(targetURL: string, targetListFile: string): (r: Result<(), ConfigError>)
    ensures r == Failure(MissingTarget) <==> targetURL == "" && targetListFile == ""
    ensures r == Failure(InvalidScheme) <==> targetURL != "" && !ValidateURL(targetURL)
    ensures r.Success? ==> (targetURL != "" || targetListFile != "") && (targetURL != "" ==> ValidateURL(targetURL))
  {
    if targetURL == "" && targetListFile == "" then Failure(MissingTarget)
    else if targetURL != "" && !ValidateURL(targetURL) then Failure(InvalidScheme)
    else Success(())
  }

  /** The hybrid configuration after the check: its fields trimmed and its method upper-cased. */
  datatype HybridTarget = HybridTarget(targetURL: string, targetListFile: string, httpMethod: string)

  /** The hybrid method: trimmed, then upper-cased; so it has no surrounding space and no lower-case letter. */
  function NormalizeMethod(httpMethod: string): (r: string)
    ensures r == [] || (!IsSpace(r[0]) && !IsSpace(r[|r| - 1]))
    ensures forall i :: 0 <= i < |r| ==> !('a' <= r[i] <= 'z')
    ensures |r| <= |httpMethod|
    ensures ToLower(r) == ToLower(TrimSpace(httpMethod))
  {
    TrimSpaceShorter(httpMethod);
    LowerOfUpper(TrimSpace(httpMethod));
    UpperOfTrimmed(TrimSpace(httpMethod));
    ToUpper(TrimSpace(httpMethod))
  }

  /** Upper-casing a string without surrounding white space adds none. */
  lemma UpperOfTrimmed(t: string)
    requires t == [] || (!IsSpace(t[0]) && !IsSpace(t[|t| - 1]))
    ensures ToUpper(t) == [] || (!IsSpace(ToUpper(t)[0]) && !IsSpace(ToUpper(t)[|t| - 1]))
  {
    if t != [] {
      UpperKeepsSpace(t[0]);
      UpperKeepsSpace(t[|t| - 1]);
    }
  }

  lemma UpperKeepsSpace(c: char)
    ensures IsSpace(UpperChar(c)) == IsSpace(c)
  {
    if 'a' <= c <= 'z' {
      assert 'A' <= UpperChar(c) <= 'Z';
    }
  }

  lemma UpperAllSpace(s: string)
    requires AllSpace(s)
    ensures AllSpace(ToUpper(s))
  {
    forall i | 0 <= i < |s|
      ensures IsSpace(ToUpper(s)[i])
    {
      UpperKeepsSpace(s[i]);
    }
  }

  /** Trimming before or after upper-casing gives the same string. */
  lemma TrimUpperCommute(s: string)
    ensures TrimSpace(ToUpper(s)) == ToUpper(TrimSpace(s))
  {
    var t := TrimSpace(s);
    var k :| TrimmedAt(s, t, k);
    ThreeParts(s, k, |t|);
    UpperPadded(s[..k], t, s[k + |t|..]);
  }

  /** Upper-casing white space around a trimmed string leaves that string to be trimmed back out. */
  lemma UpperPadded(a: string, t: string, b: string)
    requires AllSpace(a) && AllSpace(b)
    requires t == [] || (!IsSpace(t[0]) && !IsSpace(t[|t| - 1]))
    ensures TrimSpace(ToUpper(a + t + b)) == ToUpper(t)
  {
    UpperConcat(a + t, b);
    UpperConcat(a, t);
    UpperAllSpace(a);
    UpperAllSpace(b);
    UpperOfTrimmed(t);
    TrimSpacePadded(ToUpper(a), ToUpper(t), ToUpper(b));
  }


  /**
    LoadHybridConfig as written: the emptiness check looks at the raw flags, and
    only afterwards are they trimmed and the trimmed URL validated.
   */
  function LoadHybridAsWritten(targetURL: string, targetListFile: string, httpMethod: string): (r: Result<HybridTarget, ConfigError>)
    ensures r.Success? ==> r.value.targetURL == TrimSpace(targetURL) && r.value.targetListFile == TrimSpace(targetListFile)
    ensures r.Success? ==> (r.value.targetURL != "" ==> ValidateURL(r.value.targetURL))
    ensures r == Failure(MissingTarget) <==> targetURL == "" && targetListFile == ""
  {
    if targetURL == "" && targetListFile == "" then Failure(MissingTarget)
    else
      var u := TrimSpace(targetURL);
      if u != "" && !ValidateURL(u) then Failure(InvalidScheme)
      else Success(HybridTarget(u, TrimSpace(targetListFile), NormalizeMethod(httpMethod)))
  }

  /** A blank target URL passes the hybrid check although, once trimmed, no target remains. */
  lemma HybridBlankTargetAccepted(targetURL: string, httpMethod: string)
    requires targetURL != [] && AllSpace(targetURL)
    ensures LoadHybridAsWritten(targetURL, "", httpMethod).Success?
    ensures LoadHybridAsWritten(targetURL, "", httpMethod).value.targetURL == ""
    ensures LoadHybridAsWritten(targetURL, "", httpMethod).value.targetListFile == ""
  {
    TrimSpaceEmptyIff(targetURL);
    TrimSpaceEmptyIff("");
  }

  /** LoadHybridConfig with the trimming done before the emptiness check: an accepted configuration always names a target. */
  function LoadHybrid(targetURL: string, targetListFile: string, httpMethod: string): (r: Result<HybridTarget, ConfigError>)
    ensures r.Success? ==> r.value.targetURL != "" || r.value.targetListFile != ""
    ensures r.Success? ==> r.value.targetURL == TrimSpace(targetURL) && r.value.targetListFile == TrimSpace(targetListFile)
    ensures r.Success? ==> (r.value.targetURL != "" ==> ValidateURL(r.value.targetURL))
    ensures r == Failure(MissingTarget) <==> AllSpace(targetURL) && AllSpace(targetListFile)
  {
    TrimSpaceEmptyIff(targetURL);
    TrimSpaceEmptyIff(targetListFile);
    var u := TrimSpace(targetURL);
    var l := TrimSpace(targetListFile);
    match CheckTargets(u, l)
    case Failure(e) => Failure(e)
    case Success(_) => Success(HybridTarget(u, l, NormalizeMethod(httpMethod)))
  }

  // ---------------------------------------------------------------------------
  // Results

  /** removeDuplicates: each item kept at its first occurrence, in input order. */
  method RemoveDuplicates(input: seq<string>) returns (result: seq<string>)
    ensures result == Seqs.Dedup(input)
    ensures Seqs.NoDups(result)
    ensures Seqs.Elems(result) == Seqs.Elems(input)
    ensures |result| <= |input|
    ensures forall x :: x in result ==> x in input
    ensures forall i, j :: 0 <= i < j < |result| ==>
              Seqs.FirstIndex(input, result[i]) < Seqs.FirstIndex(input, result[j])
  {
    result := DedupLoop(input);
    Seqs.DedupFirstOccurrenceOrder(input);
    assert forall x :: x in result ==> x in Seqs.Elems(result);
  }

  /** The loop of removeDuplicates, with its seen-set. */
  method DedupLoop(input: seq<string>) returns (result: seq<string>)
    ensures result == Seqs.Dedup(input)
  {
    var unique: set<string> := {};
    result := [];
    var i := 0;
    while i < |input|
      invariant 0 <= i <= |input|
      invariant result == Seqs.Dedup(input[..i])
      invariant unique == Seqs.Elems(input[..i])
    {
      var item := input[i];
      Seqs.DedupPrefix(input, i);
      if item !in unique {
        unique := unique + {item};
        result := result + [item];
      }
      i := i + 1;
    }
    assert input[..i] == input;
  }

  /** The record that SaveResults serialises. */
  datatype Results = Results(
    sitemapURLs: seq<string>,
    htmlLinks: seq<string>,
    jsLinks: seq<string>,
    validPaths: seq<string>,
    validParams: seq<string>)

  /**
    SaveResults: sitemap URLs pass through unchanged; the four other lists are
    de-duplicated. File writing and JSON encoding are not modelled.
   */
  method SaveResults(sitemapURLs: seq<string>, htmlLinks: seq<string>, jsLinks: seq<string>,
                     validPaths: seq<string>, validParams: seq<string>) returns (r: Results)
    ensures r.sitemapURLs == sitemapURLs
    ensures r.htmlLinks == Seqs.Dedup(htmlLinks) && r.jsLinks == Seqs.Dedup(jsLinks)
    ensures r.validPaths == Seqs.Dedup(validPaths) && r.validParams == Seqs.Dedup(validParams)
    ensures Seqs.NoDups(r.htmlLinks) && Seqs.NoDups(r.jsLinks) && Seqs.NoDups(r.validPaths) && Seqs.NoDups(r.validParams)
    ensures Seqs.Elems(r.validPaths) == Seqs.Elems(validPaths) && Seqs.Elems(r.validParams) == Seqs.Elems(validParams)
  {
    var h := RemoveDuplicates(htmlLinks);
    var j := RemoveDuplicates(jsLinks);
    var p := RemoveDuplicates(validPaths);
    var q := RemoveDuplicates(validParams);
    r := Results(sitemapURLs, h, j, p, q);
  }
}
