/**
  The directory fuzzer: the expansion of the wordlist into candidate path
  segments, the blacklist that discards noise responses, the measurements kept
  for every hit, and the depth-bounded recursive descent into directory
  listings, run as a worklist of (URL, depth) items.
 */
module DirFuzzer {
  import opened Wrappers
  import opened Text
  import opened Seqs
  import opened Http

  // ---------------------------------------------------------------------------
  // Candidate expansion

  /** A wordlist line as fuzzed: white space trimmed, then every leading '/' dropped. */
  function CleanWord(word: string): (w: string)
    ensures w == [] || w[0] != '/'
  {
    TrimLeftChar(TrimSpace(word), '/')
  }

  predicate Kept(word: string) {
    CleanWord(word) != []
  }

  predicate NonEmpty(ext: string) {
    ext != []
  }

  /** An extension as appended: given a leading '.' when it lacks one. */
  function Dotted(ext: string): (d: string)
    ensures |d| > 0 && d[0] == '.'
  {
    if HasPrefix(ext, ".") then ext else "." + ext
  }

  /** A candidate path segment: non-empty and not starting with '/'. */
  predicate Segment(s: string) {
    s != [] && s[0] != '/'
  }

  /** The word followed by the word with each non-empty extension, in the order given. */
  function Expand(w: string, exts: seq<string>): (r: seq<string>)
    requires Segment(w)
    ensures |r| >= 1 && r[0] == w
    ensures forall i :: 0 <= i < |r| ==> Segment(r[i])
  {
    [w] + Extended(w, exts)
  }

  /** The extended forms of the word, one per non-empty extension. */
  function Extended(w: string, exts: seq<string>): (r: seq<string>)
    requires Segment(w)
    ensures forall i :: 0 <= i < |r| ==> Segment(r[i])
    decreases |exts|
  {
    if |exts| == 0 then []
    else if exts[0] == [] then Extended(w, exts[1..])
    else [w + Dotted(exts[0])] + Extended(w, exts[1..])
  }

  /** readWordlist: the wordlist file's lines, trimmed, with the blank ones dropped, in order. */
  function ReadWordlist(lines: seq<string>): (words: seq<string>)
    ensures forall i :: 0 <= i < |words| ==> words[i] != [] && TrimSpace(words[i]) == words[i]
    decreases |lines|
  {
    if |lines| == 0 then []
    else
      var l := TrimSpace(lines[0]);
      var rest := ReadWordlist(lines[1..]);
      TrimSpaceIdempotent(lines[0]);
      if l == [] then rest
      else
        var r := [l] + rest;
        assert forall i :: 0 < i < |r| ==> r[i] == rest[i - 1];
        r
  }

  /** A word is read iff it is the non-blank trim of some line. */
  lemma {:induction false} ReadWordlistMembers(lines: seq<string>)
    ensures forall w :: w in ReadWordlist(lines) <==> exists l :: l in lines && TrimSpace(l) == w && w != []
    decreases |lines|
  {
    if |lines| > 0 {
      ReadWordlistMembers(lines[1..]);
      assert forall w :: w in lines <==> w == lines[0] || w in lines[1..];
    }
  }

  /** Reading the wordlist first does not change the candidates: CleanWord trims again. */
  lemma {:induction false} CandidatesOfRead(lines: seq<string>, exts: seq<string>)
    ensures Candidates(ReadWordlist(lines), exts) == Candidates(lines, exts)
    decreases |lines|
  {
    if |lines| > 0 {
      CandidatesOfRead(lines[1..], exts);
      var l := TrimSpace(lines[0]);
      TrimSpaceIdempotent(lines[0]);
      assert CleanWord(l) == CleanWord(lines[0]);
      if l != [] {
        var r := [l] + ReadWordlist(lines[1..]);
        assert r[0] == l && r[1..] == ReadWordlist(lines[1..]);
      }
    }
  }

  /** The candidate segments of lines 82-98: each kept word, then its extended forms. */
  function Candidates(words: seq<string>, exts: seq<string>): (r: seq<string>)
    ensures forall i :: 0 <= i < |r| ==> Segment(r[i])
    decreases |words|
  {
    if |words| == 0 then []
    else
      var w := CleanWord(words[0]);
      var rest := Candidates(words[1..], exts);
      if w == [] then rest
      else Expand(w, exts) + rest
  }

  /** The extended forms pair up, in order, with the non-empty extensions. */
  lemma {:induction false} ExtendedShape(w: string, exts: seq<string>)
    requires Segment(w)
    ensures |Extended(w, exts)| == |Filter(exts, NonEmpty)|
    ensures forall j :: 0 <= j < |Filter(exts, NonEmpty)| ==>
              Extended(w, exts)[j] == w + Dotted(Filter(exts, NonEmpty)[j])
    decreases |exts|
  {
    if |exts| > 0 {
      ExtendedShape(w, exts[1..]);
      var f' := Filter(exts[1..], NonEmpty);
      if exts[0] != [] {
        assert Filter(exts, NonEmpty) == [exts[0]] + f';
        ConsAt(exts[0], f');
        ConsAt(w + Dotted(exts[0]), Extended(w, exts[1..]));
      } else {
        assert Filter(exts, NonEmpty) == f';
      }
    }
  }

  /** Indexing into the tail of a sequence. */
  lemma TailAt<T>(s: seq<T>, j: nat)
    requires j + 1 < |s|
    ensures s[1..][j] == s[j + 1]
  {
  }

  /** Indexing past the head of a cons. */
  lemma ConsAt<T>(a: T, t: seq<T>)
    ensures forall i :: 0 <= i < |t| ==> ([a] + t)[i + 1] == t[i]
  {
  }

  /** The forms of one word: the word itself, then one per non-empty extension, in order. */
  lemma ExpandShape(w: string, exts: seq<string>)
    requires Segment(w)
    ensures |Expand(w, exts)| == 1 + |Filter(exts, NonEmpty)|
    ensures forall j :: 0 <= j < |Filter(exts, NonEmpty)| ==>
              Expand(w, exts)[1 + j] == w + Dotted(Filter(exts, NonEmpty)[j])
    ensures forall i :: 0 <= i < |Expand(w, exts)| ==> HasPrefix(Expand(w, exts)[i], w)
  {
    ExtendedShape(w, exts);
    ConsAt(w, Extended(w, exts));
    forall j | 0 <= j < |Filter(exts, NonEmpty)|
      ensures HasPrefix(w + Dotted(Filter(exts, NonEmpty)[j]), w)
    {
    }
  }

  /** The candidates of a non-empty list: the first line's forms when it is kept, then the rest. */
  lemma CandidatesCons(lines: seq<string>, exts: seq<string>, x: string)
    requires |lines| > 0
    ensures x in Candidates(lines, exts) <==>
              (Kept(lines[0]) && x in Expand(CleanWord(lines[0]), exts)) || x in Candidates(lines[1..], exts)
  {
    var w := CleanWord(lines[0]);
    var rest := Candidates(lines[1..], exts);
    if w != [] {
      assert Candidates(lines, exts) == Expand(w, exts) + rest;
    }
  }

  /** Every form of a kept line is a candidate. */
  lemma {:induction false} CandidateOfLine(lines: seq<string>, exts: seq<string>, i: nat, x: string)
    requires i < |lines| && Kept(lines[i]) && x in Expand(CleanWord(lines[i]), exts)
    ensures x in Candidates(lines, exts)
    decreases |lines|
  {
    CandidatesCons(lines, exts, x);
    if i > 0 {
      TailAt(lines, i - 1);
      CandidateOfLine(lines[1..], exts, i - 1, x);
    }
  }

  /** `x` is one of the forms a wordlist line contributes. */
  predicate FormOf(line: string, exts: seq<string>, x: string) {
    Kept(line) && x in Expand(CleanWord(line), exts)
  }

  /** Every candidate is a form of some kept line. */
  lemma {:induction false} LineOfCandidate(lines: seq<string>, exts: seq<string>, x: string)
    requires x in Candidates(lines, exts)
    ensures exists i :: 0 <= i < |lines| && FormOf(lines[i], exts, x)
    decreases |lines|
  {
    assert |lines| > 0;
    CandidatesCons(lines, exts, x);
    if !FormOf(lines[0], exts, x) {
      var tail := lines[1..];
      LineOfCandidate(tail, exts, x);
      var j :| 0 <= j < |tail| && FormOf(tail[j], exts, x);
      TailAt(lines, j);
    }
  }

  /** A candidate is exactly a form of some kept line. */
  lemma CandidatesIff(lines: seq<string>, exts: seq<string>)
    ensures forall x :: x in Candidates(lines, exts) <==>
              exists i :: 0 <= i < |lines| && Kept(lines[i]) && x in Expand(CleanWord(lines[i]), exts)
  {
    forall x | x in Candidates(lines, exts)
      ensures exists i :: 0 <= i < |lines| && Kept(lines[i]) && x in Expand(CleanWord(lines[i]), exts)
    {
      LineOfCandidate(lines, exts, x);
    }
    forall x, i | 0 <= i < |lines| && Kept(lines[i]) && x in Expand(CleanWord(lines[i]), exts)
      ensures x in Candidates(lines, exts)
    {
      CandidateOfLine(lines, exts, i, x);
    }
  }

  /** Candidates are produced word by word. */
  lemma {:induction false} CandidatesConcat(a: seq<string>, b: seq<string>, exts: seq<string>)
    ensures Candidates(a + b, exts) == Candidates(a, exts) + Candidates(b, exts)
    decreases |a|
  {
    if |a| == 0 {
      assert a + b == b;
    } else {
      assert (a + b)[0] == a[0];
      assert (a + b)[1..] == a[1..] + b;
      CandidatesConcat(a[1..], b, exts);
    }
  }

  /**
    Duplicates are kept: there are exactly (kept words) × (1 + non-empty
    extensions) candidates.
   */
  lemma {:induction false} CandidatesCount(words: seq<string>, exts: seq<string>)
    ensures |Candidates(words, exts)| == |Filter(words, Kept)| * (1 + |Filter(exts, NonEmpty)|)
    decreases |words|
  {
    if |words| > 0 {
      CandidatesCount(words[1..], exts);
      var w := CleanWord(words[0]);
      var k := |Filter(words[1..], Kept)|;
      var m := 1 + |Filter(exts, NonEmpty)|;
      if w != [] {
        ExpandShape(w, exts);
        assert |Filter(words, Kept)| == k + 1;
        assert |Candidates(words, exts)| == m + k * m;
        MulSucc(k, m);
      } else {
        assert |Filter(words, Kept)| == k;
      }
    }
  }

  lemma MulSucc(k: nat, m: nat)
    ensures (k + 1) * m == m + k * m
  {
  }

  // ---------------------------------------------------------------------------
  // Measurements

  /** The number of lines that are not all white space. */
  function CountNonBlank(lines: seq<string>): (n: nat)
    ensures n <= |lines|
  {
    if |lines| == 0 then 0
    else (if TrimSpace(lines[0]) != [] then 1 else 0) + CountNonBlank(lines[1..])
  }

  /** The WordCount of a hit: the number of white-space separated fields. */
  function WordCount(body: string): nat {
    |Fields(body)|
  }

  /** The LineCount of a hit: the number of non-blank '\n'-separated lines. */
  function LineCount(body: string): nat {
    CountNonBlank(Split(body, '\n'))
  }

  lemma {:induction false} AllSpaceConcat(a: string, b: string)
    ensures AllSpace(a + b) <==> AllSpace(a) && AllSpace(b)
  {
    if AllSpace(a) && AllSpace(b) {
      forall i | 0 <= i < |a + b|
        ensures IsSpace((a + b)[i])
      {
        if i < |a| {
          assert (a + b)[i] == a[i];
        } else {
          assert (a + b)[i] == b[i - |a|];
        }
      }
    }
    if AllSpace(a + b) {
      forall i | 0 <= i < |a|
        ensures IsSpace(a[i])
      {
        assert (a + b)[i] == a[i];
      }
      forall i | 0 <= i < |b|
        ensures IsSpace(b[i])
      {
        assert (a + b)[|a| + i] == b[i];
      }
    }
  }

  /** Joined with newlines, lines are all white space exactly when each line is. */
  lemma {:induction false} JoinLinesAllSpace(lines: seq<string>)
    ensures AllSpace(Join(lines, '\n')) <==> forall l :: l in lines ==> AllSpace(l)
  {
    if |lines| >= 2 {
      JoinLinesAllSpace(lines[1..]);
      AllSpaceConcat(lines[0] + ['\n'], Join(lines[1..], '\n'));
      AllSpaceConcat(lines[0], ['\n']);
      assert forall l :: l in lines <==> l == lines[0] || l in lines[1..];
    }
  }

  lemma {:induction false} CountNonBlankZero(lines: seq<string>)
    ensures CountNonBlank(lines) == 0 <==> forall l :: l in lines ==> AllSpace(l)
  {
    if |lines| > 0 {
      CountNonBlankZero(lines[1..]);
      TrimSpaceEmptyIff(lines[0]);
      assert forall l :: l in lines <==> l == lines[0] || l in lines[1..];
    }
  }

  /** A body has no non-blank line exactly when it is all white space. */
  lemma LineCountZeroIff(body: string)
    ensures LineCount(body) == 0 <==> AllSpace(body)
  {
    CountNonBlankZero(Split(body, '\n'));
    JoinLinesAllSpace(Split(body, '\n'));
  }

  /** A body has no words exactly when it has no non-blank line. */
  lemma WordCountZeroIffLineCountZero(body: string)
    ensures WordCount(body) == 0 <==> LineCount(body) == 0
  {
    LineCountZeroIff(body);
    FieldsEmptyIff(body);
  }

  // ---------------------------------------------------------------------------
  // The blacklist

  /**
    The blacklist options. `regexes` holds the patterns that compiled; whether a
    pattern matches a body is decided by the regular-expression engine passed
    alongside as `matches`.
   */
  datatype Blacklist = Blacklist(
    statusCodes: seq<int>,
    lengths: seq<int>,
    wordCounts: seq<int>,
    lineCounts: seq<int>,
    searchWords: seq<string>,
    regexes: seq<string>)

  /** Some blacklist rule matches the response. */
  predicate RuleFires(status: int, body: string, bl: Blacklist, matches: (string, string) -> bool) {
    || status in bl.statusCodes
    || ByteLen(body) in bl.lengths
    || WordCount(body) in bl.wordCounts
    || LineCount(body) in bl.lineCounts
    || SearchWordFires(ToLower(body), bl.searchWords)
    || RegexFires(body, bl.regexes, matches)
  }

  /** Some search word, lower-cased, occurs in the lower-cased body. */
  predicate SearchWordFires(bodyLower: string, words: seq<string>)
    decreases |words|
  {
    |words| > 0 && (Contains(bodyLower, ToLower(words[0])) || SearchWordFires(bodyLower, words[1..]))
  }

  lemma {:induction false} SearchWordFiresIff(bodyLower: string, words: seq<string>)
    ensures SearchWordFires(bodyLower, words) <==> exists w :: w in words && Contains(bodyLower, ToLower(w))
    decreases |words|
  {
    if |words| > 0 {
      SearchWordFiresIff(bodyLower, words[1..]);
      assert forall w :: w in words <==> w == words[0] || w in words[1..];
    }
  }

  /** Some compiled pattern matches the body. */
  predicate RegexFires(body: string, regexes: seq<string>, matches: (string, string) -> bool)
    decreases |regexes|
  {
    |regexes| > 0 && (matches(regexes[0], body) || RegexFires(body, regexes[1..], matches))
  }

  lemma {:induction false} RegexFiresIff(body: string, regexes: seq<string>, matches: (string, string) -> bool)
    ensures RegexFires(body, regexes, matches) <==> exists p :: p in regexes && matches(p, body)
    decreases |regexes|
  {
    if |regexes| > 0 {
      RegexFiresIff(body, regexes[1..], matches);
      assert forall p :: p in regexes <==> p == regexes[0] || p in regexes[1..];
    }
  }

  /** passesBlacklistFilters: a response passes exactly when no rule matches it. */
  method PassesBlacklistFilters(status: int, body: string, bl: Blacklist, matches: (string, string) -> bool)
    returns (pass: bool)
    ensures pass <==> !RuleFires(status, body, bl, matches)
  {
    var hit := Listed(bl.statusCodes, status);
    if hit {
      return false;
    }
    hit := Listed(bl.lengths, ByteLen(body));
    if hit {
      return false;
    }
    hit := Listed(bl.wordCounts, |Fields(body)|);
    if hit {
      return false;
    }
    var nonEmptyLines := CountNonEmptyLines(body);
    hit := Listed(bl.lineCounts, nonEmptyLines);
    if hit {
      return false;
    }
    hit := AnySearchWord(ToLower(body), bl.searchWords);
    if hit {
      return false;
    }
    hit := AnyRegex(body, bl.regexes, matches);
    return !hit;
  }

  /** One of the loops comparing a measured value against a blacklist of integers. */
  method Listed(xs: seq<int>, v: int) returns (found: bool)
    ensures found <==> v in xs
  {
    for i := 0 to |xs|
      invariant forall j :: 0 <= j < i ==> xs[j] != v
    {
      if v == xs[i] {
        return true;
      }
    }
    return false;
  }

  /** The line-counting loop of lines 274-280. */
  method CountNonEmptyLines(body: string) returns (n: nat)
    ensures n == LineCount(body)
  {
    n := CountNonBlankLoop(Split(body, '\n'));
  }

  method CountNonBlankLoop(lines: seq<string>) returns (n: nat)
    ensures n == CountNonBlank(lines)
  {
    n := 0;
    for i := 0 to |lines|
      invariant n == CountNonBlank(lines[..i])
    {
      CountNonBlankPrefix(lines, i);
      if TrimSpace(lines[i]) != [] {
        n := n + 1;
      }
    }
    assert lines[..|lines|] == lines;
  }

  /** The search-word loop of lines 287-292, given the lower-cased body. */
  method AnySearchWord(bodyLower: string, words: seq<string>) returns (found: bool)
    ensures found <==> exists w :: w in words && Contains(bodyLower, ToLower(w))
    ensures found <==> SearchWordFires(bodyLower, words)
  {
    SearchWordFiresIff(bodyLower, words);
    for i := 0 to |words|
      invariant forall j :: 0 <= j < i ==> !Contains(bodyLower, ToLower(words[j]))
    {
      if Contains(bodyLower, ToLower(words[i])) {
        return true;
      }
    }
    return false;
  }

  /** The regular-expression loop of lines 294-298. */
  method AnyRegex(body: string, regexes: seq<string>, matches: (string, string) -> bool) returns (found: bool)
    ensures found <==> exists p :: p in regexes && matches(p, body)
    ensures found <==> RegexFires(body, regexes, matches)
  {
    RegexFiresIff(body, regexes, matches);
    for i := 0 to |regexes|
      invariant forall j :: 0 <= j < i ==> !matches(regexes[j], body)
    {
      if matches(regexes[i], body) {
        return true;
      }
    }
    return false;
  }

  lemma CountNonBlankPrefix(lines: seq<string>, i: nat)
    requires i < |lines|
    ensures CountNonBlank(lines[..i + 1]) == CountNonBlank(lines[..i]) + (if TrimSpace(lines[i]) != [] then 1 else 0)
  {
    assert lines[..i + 1] == lines[..i] + [lines[i]];
    CountNonBlankSnoc(lines[..i], lines[i]);
  }

  lemma {:induction false} CountNonBlankSnoc(lines: seq<string>, line: string)
    ensures CountNonBlank(lines + [line]) == CountNonBlank(lines) + (if TrimSpace(line) != [] then 1 else 0)
    decreases |lines|
  {
    if |lines| == 0 {
      assert lines + [line] == [line];
    } else {
      assert (lines + [line])[1..] == lines[1..] + [line];
      CountNonBlankSnoc(lines[1..], line);
    }
  }

  /** With every list empty, every response passes. */
  lemma EmptyBlacklistPasses(status: int, body: string, matches: (string, string) -> bool)
    ensures !RuleFires(status, body, Blacklist([], [], [], [], [], []), matches)
  {
  }

  /** An empty search word rejects every response, since every body contains "". */
  lemma EmptySearchWordRejects(status: int, body: string, bl: Blacklist, matches: (string, string) -> bool)
    requires "" in bl.searchWords
    ensures RuleFires(status, body, bl, matches)
  {
    ContainsEmpty(ToLower(body));
    assert ToLower("") == "";
    SearchWordFiresIff(ToLower(body), bl.searchWords);
  }

  /** Search words match regardless of ASCII letter case. */
  lemma SearchWordCaseInsensitive(status: int, body: string, bl: Blacklist, matches: (string, string) -> bool, w: string)
    requires w in bl.searchWords
    requires Contains(body, w)
    ensures RuleFires(status, body, bl, matches)
  {
    var i :| 0 <= i <= |body| && OccursAt(body, w, i);
    assert ToLower(body)[i..i + |w|] == ToLower(w);
    assert OccursAt(ToLower(body), ToLower(w), i);
    SearchWordFiresIff(ToLower(body), bl.searchWords);
  }

  /** Lengthening any blacklist list can only reject more responses. */
  lemma BlacklistMonotone(status: int, body: string, bl: Blacklist, more: Blacklist, matches: (string, string) -> bool)
    requires forall x :: x in bl.statusCodes ==> x in more.statusCodes
    requires forall x :: x in bl.lengths ==> x in more.lengths
    requires forall x :: x in bl.wordCounts ==> x in more.wordCounts
    requires forall x :: x in bl.lineCounts ==> x in more.lineCounts
    requires forall x :: x in bl.searchWords ==> x in more.searchWords
    requires forall x :: x in bl.regexes ==> x in more.regexes
    requires RuleFires(status, body, bl, matches)
    ensures RuleFires(status, body, more, matches)
  {
    SearchWordFiresIff(ToLower(body), bl.searchWords);
    SearchWordFiresIff(ToLower(body), more.searchWords);
    RegexFiresIff(body, bl.regexes, matches);
    RegexFiresIff(body, more.regexes, matches);
  }

  /** Lines 69-80: the blacklist patterns kept are the non-empty ones that compile, in order. */
  function CompileRegexes(patterns: seq<string>, compiles: string -> bool): (r: seq<string>)
    ensures forall p :: p in r <==> p in patterns && p != [] && compiles(p)
    ensures Subseq(r, patterns)
  {
    Filter(patterns, p => p != [] && compiles(p))
  }

  // ---------------------------------------------------------------------------
  // Descent

  predicate IsHtml(contentType: string) {
    var ct := ToLower(contentType);
    Contains(ct, "text/html") || Contains(ct, "application/xhtml+xml")
  }

  /** The URL ends in one of the extensions exactly as configured (no '.' added). */
  predicate IsFile(url: string, exts: seq<string>) {
    exists e :: e in exts && e != [] && HasSuffix(url, e)
  }

  /** Lines 222-235: a hit at `depth` is fuzzed one level deeper. */
  predicate Descends(depth: int, maxDepth: int, url: string, resp: Response, body: string, exts: seq<string>) {
    && depth < maxDepth
    && resp.status in {200, 301, 302, 403}
    && IsHtml(HeaderGet(resp.header, "Content-Type"))
    && !IsFile(url, exts)
    && (Contains(body, "Index of") || Contains(body, "<html"))
  }

  // ---------------------------------------------------------------------------
  // The worklist

  datatype FuzzResult = FuzzResult(url: string, statusCode: int, contentLength: nat, wordCount: nat, lineCount: nat)

  /** A recorded result and the depth of the fuzz call that probed it. */
  datatype Hit = Hit(result: FuzzResult, depth: int)

  /** A pending call fuzz(url, depth). */
  datatype Item = Item(url: string, depth: int)

  /**
    One run's fixed inputs. `words` are the candidate segments; `resolve(base, w)`
    is the URL that url.Parse, url.PathEscape and path.Join build for segment `w`
    under `base` (None when `base` does not parse); `fetch(url)` is the outcome
    of the GET request (None when it could not be made or answered).
   */
  datatype Env = Env(
    maxDepth: int,
    words: seq<string>,
    exts: seq<string>,
    blacklist: Blacklist,
    matches: (string, string) -> bool,
    resolve: (string, string) -> Option<string>,
    fetch: string -> Option<Response>)

  function Measure(url: string, status: int, body: string): FuzzResult {
    FuzzResult(url, status, ByteLen(body), WordCount(body), LineCount(body))
  }

  /** `r` is what a probe of r.url records: the response was read, passed the blacklist and was measured. */
  predicate Recorded(env: Env, r: FuzzResult) {
    && env.fetch(r.url).Some?
    && env.fetch(r.url).value.body.Some?
    && var resp := env.fetch(r.url).value;
       && !RuleFires(resp.status, resp.body.value, env.blacklist, env.matches)
       && r == Measure(r.url, resp.status, resp.body.value)
  }

  /** A probe of `url` at `depth` is recorded and leads one level deeper. */
  predicate Deepens(env: Env, url: string, depth: int) {
    && env.fetch(url).Some?
    && env.fetch(url).value.body.Some?
    && var resp := env.fetch(url).value;
       && !RuleFires(resp.status, resp.body.value, env.blacklist, env.matches)
       && Descends(depth, env.maxDepth, url, resp, resp.body.value, env.exts)
  }

  /**
    The goroutine of lines 151-242 for one URL: the result it records, if any,
    and whether it descends.
   */
  function Probe(env: Env, url: string, depth: int): (p: (Option<FuzzResult>, bool))
    ensures p.0.Some? ==> p.0.value.url == url && Recorded(env, p.0.value)
    ensures p.1 <==> Deepens(env, url, depth)
    ensures p.1 ==> p.0.Some?
  {
    match env.fetch(url)
    case None => (None, false)
    case Some(resp) =>
      match resp.body
      case None => (None, false)
      case Some(body) =>
        if RuleFires(resp.status, body, env.blacklist, env.matches) then (None, false)
        else (Some(Measure(url, resp.status, body)), Descends(depth, env.maxDepth, url, resp, body, env.exts))
  }

  /** The hit and the spawned call of one probe, as lists of at most one element. */
  function ProbeLists(env: Env, url: string, depth: int): (r: (seq<Hit>, seq<Item>))
    ensures |r.0| <= 1 && |r.1| <= 1
    ensures forall h :: h in r.0 ==> h.depth == depth && Recorded(env, h.result) && h.result.url == url
    ensures forall c :: c in r.1 ==> c.depth == depth + 1 && Deepens(env, c.url, depth) && c.url == url
    ensures Probe(env, url, depth).0.Some? ==> r.0 == [Hit(Probe(env, url, depth).0.value, depth)]
    ensures Probe(env, url, depth).1 ==> r.1 == [Item(url, depth + 1)]
  {
    var p := Probe(env, url, depth);
    var hits := HitList(p.0, depth);
    assert forall h :: h in hits ==> p.0.Some? && h == Hit(p.0.value, depth);
    (hits, ItemList(env, url, depth, p.1))
  }

  function HitList(res: Option<FuzzResult>, depth: int): (r: seq<Hit>)
    ensures res.Some? ==> r == [Hit(res.value, depth)]
    ensures res.None? ==> r == []
  {
    if res.Some? then [Hit(res.value, depth)] else []
  }

  function ItemList(env: Env, url: string, depth: int, deepens: bool): (r: seq<Item>)
    requires deepens ==> Deepens(env, url, depth)
    ensures |r| <= 1
    ensures forall c :: c in r ==> c.depth == depth + 1 && Deepens(env, c.url, depth) && c.url == url
    ensures deepens ==> r == [Item(url, depth + 1)]
  {
    if deepens then
      var c := Item(url, depth + 1);
      assert forall c' :: c' in [c] ==> c' == c;
      [c]
    else []
  }

  /** The loop of lines 130-243 over `ws`: the hits recorded and the calls spawned. */
  function ProbeAll(env: Env, base: string, depth: int, ws: seq<string>): (r: (seq<Hit>, seq<Item>))
    ensures |r.1| <= |ws|
    ensures forall h :: h in r.0 ==> h.depth == depth && Recorded(env, h.result)
    ensures forall c :: c in r.1 ==> c.depth == depth + 1 && Deepens(env, c.url, depth)
    ensures forall h :: h in r.0 ==> exists w :: w in ws && env.resolve(base, w) == Some(h.result.url)
    ensures forall c :: c in r.1 ==> exists w :: w in ws && env.resolve(base, w) == Some(c.url)
    decreases |ws|
  {
    if |ws| == 0 then ([], [])
    else
      var rest := ProbeAll(env, base, depth, ws[1..]);
      assert forall w :: w in ws[1..] ==> w in ws;
      match env.resolve(base, ws[0])
      case None => rest
      case Some(url) =>
        var (hit, item) := ProbeLists(env, url, depth);
        (hit + rest.0, item + rest.1)
  }

  /** Every word that resolves to a URL whose probe is recorded yields a hit for that URL. */
  lemma {:induction false} ProbeAllComplete(env: Env, base: string, depth: int, ws: seq<string>, w: string, url: string)
    requires w in ws && env.resolve(base, w) == Some(url)
    requires Probe(env, url, depth).0.Some?
    ensures Hit(Probe(env, url, depth).0.value, depth) in ProbeAll(env, base, depth, ws).0
    decreases |ws|
  {
    ProbeAllStep(env, base, depth, ws);
    if ws[0] != w {
      ProbeAllComplete(env, base, depth, ws[1..], w, url);
    } else {
      var hit := ProbeLists(env, url, depth).0;
      assert hit[0] in ProbeAll(env, base, depth, ws).0;
    }
  }

  /** Every word that resolves to a URL whose probe descends spawns the call one level deeper for that URL. */
  lemma {:induction false} ProbeAllSpawns(env: Env, base: string, depth: int, ws: seq<string>, w: string, url: string)
    requires w in ws && env.resolve(base, w) == Some(url)
    requires Deepens(env, url, depth)
    ensures Item(url, depth + 1) in ProbeAll(env, base, depth, ws).1
    decreases |ws|
  {
    ProbeAllStep(env, base, depth, ws);
    if ws[0] != w {
      ProbeAllSpawns(env, base, depth, ws[1..], w, url);
    } else {
      var item := ProbeLists(env, url, depth).1;
      assert item[0] in ProbeAll(env, base, depth, ws).1;
    }
  }

  /** One step of the loop: the first word's hit and call, if any, then those of the rest. */
  lemma ProbeAllStep(env: Env, base: string, depth: int, ws: seq<string>)
    requires |ws| > 0
    ensures env.resolve(base, ws[0]).None? ==> ProbeAll(env, base, depth, ws).0 == ProbeAll(env, base, depth, ws[1..]).0
    ensures env.resolve(base, ws[0]).Some? ==>
              ProbeAll(env, base, depth, ws).0
                == ProbeLists(env, env.resolve(base, ws[0]).value, depth).0 + ProbeAll(env, base, depth, ws[1..]).0
    ensures env.resolve(base, ws[0]).None? ==> ProbeAll(env, base, depth, ws).1 == ProbeAll(env, base, depth, ws[1..]).1
    ensures env.resolve(base, ws[0]).Some? ==>
              ProbeAll(env, base, depth, ws).1
                == ProbeLists(env, env.resolve(base, ws[0]).value, depth).1 + ProbeAll(env, base, depth, ws[1..]).1
  {
  }

  /**
    The work an item at depth `d` may still cause: 1 for the item, plus the
    work of up to `n` items one level deeper while `d` is within the bound.
   */
  function Weight(maxDepth: int, n: nat, d: int): (w: nat)
    ensures w >= 1
    decreases if d > maxDepth then 0 else maxDepth - d + 1
  {
    if d > maxDepth then 1 else 1 + n * Weight(maxDepth, n, d + 1)
  }

  function QueueWeight(env: Env, q: seq<Item>): nat {
    if |q| == 0 then 0 else Weight(env.maxDepth, |env.words|, q[0].depth) + QueueWeight(env, q[1..])
  }

  lemma {:induction false} QueueWeightConcat(env: Env, a: seq<Item>, b: seq<Item>)
    ensures QueueWeight(env, a + b) == QueueWeight(env, a) + QueueWeight(env, b)
    decreases |a|
  {
    if |a| == 0 {
      assert a + b == b;
    } else {
      assert (a + b)[1..] == a[1..] + b;
      QueueWeightConcat(env, a[1..], b);
    }
  }

  /** Items one level deeper weigh less, all together, than the item that spawned them. */
  lemma {:induction false} ChildrenWeigh(env: Env, children: seq<Item>, d: int)
    requires d <= env.maxDepth
    requires |children| <= |env.words|
    requires forall c :: c in children ==> c.depth == d + 1
    ensures QueueWeight(env, children) < Weight(env.maxDepth, |env.words|, d)
  {
    var w := Weight(env.maxDepth, |env.words|, d + 1);
    UniformWeight(env, children, d + 1);
    assert |children| * w <= |env.words| * w by {
      MulMono(|children|, |env.words|, w);
    }
  }

  lemma MulMono(a: nat, b: nat, c: nat)
    requires a <= b
    ensures a * c <= b * c
  {
  }

  lemma {:induction false} UniformWeight(env: Env, q: seq<Item>, d: int)
    requires forall c :: c in q ==> c.depth == d
    ensures QueueWeight(env, q) == |q| * Weight(env.maxDepth, |env.words|, d)
  {
    if |q| > 0 {
      assert q[0] in q;
      assert forall c :: c in q[1..] ==> c in q;
      UniformWeight(env, q[1..], d);
      var w := Weight(env.maxDepth, |env.words|, d);
      assert QueueWeight(env, q) == w + (|q| - 1) * w;
      MulSucc(|q| - 1, w);
    }
  }

  /**
    Runs the pending calls in order. A call beyond the depth bound probes
    nothing (lines 119-122); every other call probes every candidate under its
    URL and queues the descents it triggers.
   */
  function Run(env: Env, queue: seq<Item>): (hits: seq<Hit>)
    ensures forall h :: h in hits ==> h.depth <= env.maxDepth && Recorded(env, h.result)
    decreases QueueWeight(env, queue)
  {
    if |queue| == 0 then []
    else
      var item := queue[0];
      if item.depth > env.maxDepth then
        Run(env, queue[1..])
      else
        var p := ProbeAll(env, item.url, item.depth, env.words);
        QueueWeightConcat(env, queue[1..], p.1);
        ChildrenWeigh(env, p.1, item.depth);
        p.0 + Run(env, queue[1..] + p.1)
  }

  /** No call made below depth `lo` makes one below it either. */
  lemma {:induction false} RunDepthFloor(env: Env, queue: seq<Item>, lo: int)
    requires forall c :: c in queue ==> c.depth >= lo
    ensures forall h :: h in Run(env, queue) ==> h.depth >= lo
    decreases QueueWeight(env, queue)
  {
    if |queue| > 0 {
      var item := queue[0];
      assert item in queue;
      assert forall c :: c in queue[1..] ==> c in queue;
      if item.depth > env.maxDepth {
        RunDepthFloor(env, queue[1..], lo);
      } else {
        var p := ProbeAll(env, item.url, item.depth, env.words);
        QueueWeightConcat(env, queue[1..], p.1);
        ChildrenWeigh(env, p.1, item.depth);
        RunDepthFloor(env, queue[1..] + p.1, lo);
      }
    }
  }

  /**
    The order in which the pending calls run does not change which hits are
    found: a queue finds exactly the hits of its two parts.
   */
  lemma {:induction false} RunSplit(env: Env, a: seq<Item>, b: seq<Item>)
    ensures Elems(Run(env, a + b)) == Elems(Run(env, a)) + Elems(Run(env, b))
    decreases QueueWeight(env, a) + QueueWeight(env, b)
  {
    if |a| == 0 {
      assert a + b == b;
    } else {
      RunUnfold(env, a);
      RunUnfold(env, a + b);
      ConcatHeadTail(a, b);
      if a[0].depth > env.maxDepth {
        RunSplit(env, a[1..], b);
      } else {
        var c := ProbeAll(env, a[0].url, a[0].depth, env.words).1;
        ConcatAssoc(a[1..], b, c);
        QueueWeightConcat(env, b, c);
        RunSplit(env, a[1..], b + c);
        RunSplit(env, b, c);
        RunSplit(env, a[1..], c);
      }
    }
  }

  /** One step of the run, stated on the sets of hits. */
  lemma RunUnfold(env: Env, q: seq<Item>)
    requires |q| > 0
    ensures QueueWeight(env, q) == Weight(env.maxDepth, |env.words|, q[0].depth) + QueueWeight(env, q[1..])
    ensures q[0].depth > env.maxDepth ==> Run(env, q) == Run(env, q[1..])
    ensures q[0].depth <= env.maxDepth ==>
              var p := ProbeAll(env, q[0].url, q[0].depth, env.words);
              && Elems(Run(env, q)) == Elems(p.0) + Elems(Run(env, q[1..] + p.1))
              && QueueWeight(env, p.1) < Weight(env.maxDepth, |env.words|, q[0].depth)
  {
    if q[0].depth <= env.maxDepth {
      var p := ProbeAll(env, q[0].url, q[0].depth, env.words);
      ChildrenWeigh(env, p.1, q[0].depth);
      ElemsConcat(p.0, Run(env, q[1..] + p.1));
    }
  }

  lemma ElemsConcat<T>(a: seq<T>, b: seq<T>)
    ensures Elems(a + b) == Elems(a) + Elems(b)
  {
  }

  /** The hits of one call within the bound: those of its own loop, then those of the calls it spawns. */
  lemma RunSingle(env: Env, it: Item)
    requires it.depth <= env.maxDepth
    ensures Elems(Run(env, [it]))
              == Elems(ProbeAll(env, it.url, it.depth, env.words).0)
                 + Elems(Run(env, ProbeAll(env, it.url, it.depth, env.words).1))
  {
    var p := ProbeAll(env, it.url, it.depth, env.words);
    assert [it][1..] + p.1 == p.1;
    ElemsConcat(p.0, Run(env, p.1));
  }

  /** Whatever a pending call finds, every queue holding that call finds. */
  lemma RunMember(env: Env, queue: seq<Item>, it: Item)
    requires it in queue
    ensures Elems(Run(env, [it])) <= Elems(Run(env, queue))
  {
    var i :| 0 <= i < |queue| && queue[i] == it;
    assert queue == queue[..i] + ([it] + queue[i + 1..]);
    RunSplit(env, queue[..i], [it] + queue[i + 1..]);
    RunSplit(env, [it], queue[i + 1..]);
  }

  /**
    No pending call within the depth bound is lost: every word under its URL
    whose probe is recorded yields that hit at the call's depth.
   */
  lemma RunComplete(env: Env, queue: seq<Item>, it: Item, w: string, url: string)
    requires it in queue && it.depth <= env.maxDepth
    requires w in env.words && env.resolve(it.url, w) == Some(url)
    requires Probe(env, url, it.depth).0.Some?
    ensures Hit(Probe(env, url, it.depth).0.value, it.depth) in Run(env, queue)
  {
    var h := Hit(Probe(env, url, it.depth).0.value, it.depth);
    ProbeAllComplete(env, it.url, it.depth, env.words, w, url);
    RunSingle(env, it);
    RunMember(env, queue, it);
    assert h in Elems(ProbeAll(env, it.url, it.depth, env.words).0);
    assert h in Elems(Run(env, queue));
  }

  /**
    `url` is fuzzed at depth `d` in the run started by fuzz(root, d0): it is the
    root itself, or a candidate under a URL fuzzed one level up whose probe
    descends (lines 222-235).
   */
  ghost predicate Reaches(env: Env, root: string, d0: int, url: string, d: int)
    decreases d - d0
  {
    if d <= d0 then d == d0 && url == root
    else exists parent, w :: && w in env.words && env.resolve(parent, w) == Some(url)
                             && Deepens(env, url, d - 1) && Reaches(env, root, d0, parent, d - 1)
  }

  /** Whatever a reached call finds, the run from the root finds. */
  lemma {:induction false} ReachedRuns(env: Env, root: string, d0: int, url: string, d: int)
    requires Reaches(env, root, d0, url, d)
    ensures Elems(Run(env, [Item(url, d)])) <= Elems(Run(env, [Item(root, d0)]))
    decreases d - d0
  {
    if d > d0 {
      var parent, w :| && w in env.words && env.resolve(parent, w) == Some(url)
                       && Deepens(env, url, d - 1) && Reaches(env, root, d0, parent, d - 1);
      ReachedRuns(env, root, d0, parent, d - 1);
      ProbeAllSpawns(env, parent, d - 1, env.words, w, url);
      RunSingle(env, Item(parent, d - 1));
      RunMember(env, ProbeAll(env, parent, d - 1, env.words).1, Item(url, d));
    }
  }

  /** A reached call reaches, one level deeper, every candidate under it whose probe descends. */
  lemma ReachesStep(env: Env, root: string, d0: int, parent: string, d: int, w: string, url: string)
    requires Reaches(env, root, d0, parent, d)
    requires w in env.words && env.resolve(parent, w) == Some(url) && Deepens(env, url, d)
    ensures Reaches(env, root, d0, url, d + 1)
  {
  }

  /** What a reached URL reaches, the root reaches too. */
  lemma {:induction false} ReachesTrans(env: Env, r: string, d0: int, m: string, dm: int, u: string, du: int)
    requires Reaches(env, r, d0, m, dm) && Reaches(env, m, dm, u, du)
    ensures Reaches(env, r, d0, u, du)
    decreases du - dm
  {
    if du > dm {
      var p, w :| && w in env.words && env.resolve(p, w) == Some(u)
                  && Deepens(env, u, du - 1) && Reaches(env, m, dm, p, du - 1);
      ReachesTrans(env, r, d0, m, dm, p, du - 1);
      ReachesStep(env, r, d0, p, du - 1, w, u);
    }
  }

  /** The hit was probed as a candidate under a URL that fuzz(root, d0) reaches at the hit's depth. */
  ghost predicate ProbedUnder(env: Env, root: string, d0: int, h: Hit) {
    exists url, w :: Reaches(env, root, d0, url, h.depth) && w in env.words && env.resolve(url, w) == Some(h.result.url)
  }

  /** A hit of a call spawned by `item` was probed under a URL that `item` reaches. */
  lemma ProbedUnderChild(env: Env, item: Item, child: Item, h: Hit)
    requires child in ProbeAll(env, item.url, item.depth, env.words).1
    requires ProbedUnder(env, child.url, child.depth, h)
    ensures ProbedUnder(env, item.url, item.depth, h)
  {
    var w :| w in env.words && env.resolve(item.url, w) == Some(child.url);
    assert Reaches(env, item.url, item.depth, item.url, item.depth);
    ReachesStep(env, item.url, item.depth, item.url, item.depth, w, child.url);
    var url, w' :| Reaches(env, child.url, child.depth, url, h.depth) && w' in env.words && env.resolve(url, w') == Some(h.result.url);
    ReachesTrans(env, item.url, item.depth, child.url, child.depth, url, h.depth);
  }

  /** Every hit of a run was probed under a URL that one of the pending calls reaches. */
  lemma {:induction false} RunProvenance(env: Env, queue: seq<Item>)
    ensures forall h :: h in Run(env, queue) ==> exists it :: it in queue && ProbedUnder(env, it.url, it.depth, h)
    decreases QueueWeight(env, queue)
  {
    if |queue| > 0 {
      var item := queue[0];
      assert item in queue;
      assert forall c :: c in queue[1..] ==> c in queue;
      if item.depth > env.maxDepth {
        RunProvenance(env, queue[1..]);
      } else {
        var p := ProbeAll(env, item.url, item.depth, env.words);
        QueueWeightConcat(env, queue[1..], p.1);
        ChildrenWeigh(env, p.1, item.depth);
        RunProvenance(env, queue[1..] + p.1);
        assert Run(env, queue) == p.0 + Run(env, queue[1..] + p.1);
        forall h | h in Run(env, queue)
          ensures exists it :: it in queue && ProbedUnder(env, it.url, it.depth, h)
        {
          if h in p.0 {
            var w :| w in env.words && env.resolve(item.url, w) == Some(h.result.url);
            assert Reaches(env, item.url, item.depth, item.url, h.depth);
          } else {
            var it :| it in queue[1..] + p.1 && ProbedUnder(env, it.url, it.depth, h);
            if it !in queue[1..] {
              ProbedUnderChild(env, item, it, h);
            }
          }
        }
      }
    }
  }

  /** Every hit of the run from the target was probed under a URL the target reaches. */
  lemma TargetProvenance(env: Env, targetURL: string)
    ensures forall h :: h in Run(env, [Item(targetURL, 1)]) ==> ProbedUnder(env, targetURL, 1, h)
  {
    RunProvenance(env, [Item(targetURL, 1)]);
    forall h | h in Run(env, [Item(targetURL, 1)])
      ensures ProbedUnder(env, targetURL, 1, h)
    {
      var it :| it in [Item(targetURL, 1)] && ProbedUnder(env, it.url, it.depth, h);
    }
  }

  /**
    FuzzDirectories: the run started by fuzz(targetURL, 1). Every hit was probed
    at a depth between 1 and the configured Depth as a candidate under a URL
    reached from the target, and records a read response that passed the
    blacklist. Conversely every such candidate is reported.
   */
  function FuzzDirectories(env: Env, targetURL: string): (hits: seq<Hit>)
    ensures forall h :: h in hits ==> 1 <= h.depth <= env.maxDepth && Recorded(env, h.result)
    ensures forall h :: h in hits ==> ProbedUnder(env, targetURL, 1, h)
    ensures forall url, d, w, u ::
              && Reaches(env, targetURL, 1, url, d) && d <= env.maxDepth
              && w in env.words && env.resolve(url, w) == Some(u) && Probe(env, u, d).0.Some?
              ==> Hit(Probe(env, u, d).0.value, d) in hits
  {
    RunDepthFloor(env, [Item(targetURL, 1)], 1);
    ReachableReported(env, targetURL);
    TargetProvenance(env, targetURL);
    Run(env, [Item(targetURL, 1)])
  }

  /** The environment of a run over a wordlist file's lines: the lines read and expanded into candidates first (lines 63-99). */
  function WithWordlist(env: Env, lines: seq<string>): Env {
    env.(words := Candidates(ReadWordlist(lines), env.exts))
  }

  /**
    FuzzWordlist: FuzzDirectories over the candidates of the given wordlist
    lines. Every hit is sound as above, and every form of every kept line is
    probed under every reached URL.
   */
  function FuzzWordlist(env: Env, targetURL: string, lines: seq<string>): (hits: seq<Hit>)
    ensures forall h :: h in hits ==>
              1 <= h.depth <= env.maxDepth && Recorded(env, h.result) && ProbedUnder(WithWordlist(env, lines), targetURL, 1, h)
    ensures forall url, d, i, x, u ::
              && Reaches(WithWordlist(env, lines), targetURL, 1, url, d) && d <= env.maxDepth
              && 0 <= i < |lines| && Kept(lines[i]) && x in Expand(CleanWord(lines[i]), env.exts)
              && env.resolve(url, x) == Some(u) && Probe(env, u, d).0.Some?
              ==> Hit(Probe(env, u, d).0.value, d) in hits
  {
    var e := WithWordlist(env, lines);
    CandidatesOfRead(lines, env.exts);
    CandidatesIff(lines, env.exts);
    assert forall u, d :: Probe(e, u, d) == Probe(env, u, d);
    FuzzDirectories(e, targetURL)
  }

  /** Every candidate under a reached URL whose probe is recorded is reported, at the depth it was reached. */
  lemma ReachableReported(env: Env, targetURL: string)
    ensures forall url, d, w, u ::
              && Reaches(env, targetURL, 1, url, d) && d <= env.maxDepth
              && w in env.words && env.resolve(url, w) == Some(u) && Probe(env, u, d).0.Some?
              ==> Hit(Probe(env, u, d).0.value, d) in Run(env, [Item(targetURL, 1)])
  {
    forall url, d, w, u | && Reaches(env, targetURL, 1, url, d) && d <= env.maxDepth
                          && w in env.words && env.resolve(url, w) == Some(u) && Probe(env, u, d).0.Some?
      ensures Hit(Probe(env, u, d).0.value, d) in Run(env, [Item(targetURL, 1)])
    {
      ReachedComplete(env, targetURL, url, d, w, u);
    }
  }

  lemma ReachedComplete(env: Env, targetURL: string, url: string, d: int, w: string, u: string)
    requires Reaches(env, targetURL, 1, url, d) && d <= env.maxDepth
    requires w in env.words && env.resolve(url, w) == Some(u) && Probe(env, u, d).0.Some?
    ensures Hit(Probe(env, u, d).0.value, d) in Run(env, [Item(targetURL, 1)])
  {
    var h := Hit(Probe(env, u, d).0.value, d);
    ReachedRuns(env, targetURL, 1, url, d);
    RunComplete(env, [Item(url, d)], Item(url, d), w, u);
    assert h in Elems(Run(env, [Item(url, d)]));
    assert h in Elems(Run(env, [Item(targetURL, 1)]));
  }

  /** A Depth below 1 probes nothing at all. */
  lemma NothingBelowDepthOne(env: Env, targetURL: string)
    requires env.maxDepth < 1
    ensures FuzzDirectories(env, targetURL) == []
  {
    assert Run(env, [Item(targetURL, 1)]) == Run(env, []);
  }

  /**
    At the first level nothing is missed: every candidate whose URL resolves
    and whose response is read and passes the blacklist is reported at depth 1.
   */
  lemma FirstLevelComplete(env: Env, targetURL: string, w: string, url: string)
    requires env.maxDepth >= 1
    requires w in env.words && env.resolve(targetURL, w) == Some(url)
    requires env.fetch(url).Some? && env.fetch(url).value.body.Some?
    requires !RuleFires(env.fetch(url).value.status, env.fetch(url).value.body.value, env.blacklist, env.matches)
    ensures exists h :: h in FuzzDirectories(env, targetURL) && h.depth == 1 && h.result.url == url
  {
    var p := ProbeAll(env, targetURL, 1, env.words);
    ProbeAllComplete(env, targetURL, 1, env.words, w, url);
    var h := Hit(Probe(env, url, 1).0.value, 1);
    assert Run(env, [Item(targetURL, 1)]) == p.0 + Run(env, [Item(targetURL, 1)][1..] + p.1);
    assert h in FuzzDirectories(env, targetURL);
  }

  // ---------------------------------------------------------------------------
  // Semaphore slots during a descent (lines 103, 118-244)

  /**
    A live goroutine of lines 151-242: still probing its URL, or inside the
    nested call fuzz(urlStr, currentDepth+1) of line 234, whose loop has
    `pending` words left to take a slot for at line 149.
   */
  datatype Worker = Probing | Descending(pending: nat)

  /**
    The run at one moment: `held` slots of the channel made at line 103 are
    taken, the top-level loop of line 243 has `main` words left, and
    `workers` are the live goroutines.
   */
  datatype Pool = Pool(held: nat, main: nat, workers: seq<Worker>)

  /**
    What one actor can do. Actor `i` is `workers[i]`, or the top-level loop
    when `i == |workers|`.
    - Acquire: the send of line 149 for the actor's next word, which starts a
      probing goroutine.
    - Finish: a probing goroutine returns without descending; the deferred
      receive of line 154 frees its slot.
    - Descend: a probing goroutine calls fuzz at line 234 with `words` words.
    - Return: a nested call whose loop is done returns, and so does its
      goroutine (line 154 again).
   */
  datatype Move = Acquire(i: nat) | Finish(i: nat) | Descend(i: nat, words: nat) | Return(i: nat)

  /**
    Whether move `m` can happen now with `concurrency` slots. `release` says
    whether a goroutine gives its slot back before it descends (the corrected
    code); as written it keeps the slot until it returns.
   */
  predicate Enabled(concurrency: nat, p: Pool, m: Move, release: bool) {
    match m
    case Acquire(i) =>
      && p.held < concurrency
      && (if i == |p.workers| then p.main > 0
          else i < |p.workers| && p.workers[i].Descending? && p.workers[i].pending > 0)
    case Finish(i) => i < |p.workers| && p.workers[i].Probing? && p.held > 0
    case Descend(i, _) => i < |p.workers| && p.workers[i].Probing? && p.held > 0
    case Return(i) => i < |p.workers| && p.workers[i] == Descending(0) && (release || p.held > 0)
  }

  function RemoveAt(ws: seq<Worker>, i: nat): (r: seq<Worker>)
    requires i < |ws|
    ensures |r| == |ws| - 1
  {
    ws[..i] + ws[i + 1..]
  }

  /** The pool after an enabled move. */
  function Apply(concurrency: nat, p: Pool, m: Move, release: bool): (q: Pool)
    requires Enabled(concurrency, p, m, release)
  {
    match m
    case Acquire(i) =>
      if i == |p.workers| then Pool(p.held + 1, p.main - 1, p.workers + [Probing])
      else Pool(p.held + 1, p.main, p.workers[i := Descending(p.workers[i].pending - 1)] + [Probing])
    case Finish(i) => Pool(p.held - 1, p.main, RemoveAt(p.workers, i))
    case Descend(i, n) =>
      Pool(if release then p.held - 1 else p.held, p.main, p.workers[i := Descending(n)])
    case Return(i) =>
      Pool(if release then p.held else p.held - 1, p.main, RemoveAt(p.workers, i))
  }

  /** The number of probing goroutines. */
  function Probers(ws: seq<Worker>): (n: nat)
    ensures n <= |ws|
  {
    if ws == [] then 0 else (if ws[0].Probing? then 1 else 0) + Probers(ws[1..])
  }

  lemma {:induction false} ProbersConcat(a: seq<Worker>, b: seq<Worker>)
    ensures Probers(a + b) == Probers(a) + Probers(b)
    decreases |a|
  {
    if a == [] {
      assert a + b == b;
    } else {
      assert (a + b)[1..] == a[1..] + b;
      ProbersConcat(a[1..], b);
    }
  }

  lemma ProbersSplit(ws: seq<Worker>, i: nat)
    requires i < |ws|
    ensures Probers(ws) == Probers(RemoveAt(ws, i)) + (if ws[i].Probing? then 1 else 0)
  {
    var front, mid, back := ws[..i], ws[i..], ws[i + 1..];
    assert ws == front + mid;
    assert mid[0] == ws[i] && mid[1..] == back;
    ProbersConcat(front, mid);
    ProbersConcat(front, back);
  }

  lemma ProbersUpdate(ws: seq<Worker>, i: nat, n: nat)
    requires i < |ws|
    ensures Probers(ws[i := Descending(n)]) == Probers(ws) - (if ws[i].Probing? then 1 else 0)
  {
    var ws' := ws[i := Descending(n)];
    ProbersSplit(ws, i);
    ProbersSplit(ws', i);
    assert RemoveAt(ws', i) == RemoveAt(ws, i);
  }

  /** As written, every live goroutine holds the slot it took, and no more slots are taken than exist. */
  predicate AsWrittenInv(concurrency: nat, p: Pool) {
    p.held == |p.workers| <= concurrency
  }

  /** With the release before descending, exactly the probing goroutines hold slots. */
  predicate ReleasedInv(concurrency: nat, p: Pool) {
    p.held == Probers(p.workers) <= concurrency
  }

  /** The start of a run over `words` words: no slot taken, no goroutine started. */
  function Start(words: nat): (p: Pool)
    ensures forall c: nat :: AsWrittenInv(c, p) && ReleasedInv(c, p)
  {
    Pool(0, words, [])
  }

  lemma AsWrittenStep(concurrency: nat, p: Pool, m: Move)
    requires AsWrittenInv(concurrency, p) && Enabled(concurrency, p, m, false)
    ensures AsWrittenInv(concurrency, Apply(concurrency, p, m, false))
  {
  }

  lemma ReleasedStep(concurrency: nat, p: Pool, m: Move)
    requires ReleasedInv(concurrency, p) && Enabled(concurrency, p, m, true)
    ensures ReleasedInv(concurrency, Apply(concurrency, p, m, true))
  {
    match m
    case Acquire(i) =>
      if i < |p.workers| {
        ProbersUpdate(p.workers, i, p.workers[i].pending - 1);
        ProbersConcat(p.workers[i := Descending(p.workers[i].pending - 1)], [Probing]);
      } else {
        ProbersConcat(p.workers, [Probing]);
      }
    case Finish(i) => ProbersSplit(p.workers, i);
    case Descend(i, n) => ProbersUpdate(p.workers, i, n);
    case Return(i) => ProbersSplit(p.workers, i);
  }

  /**
    As written, once every live goroutine is inside a descent that still has
    words to fetch, nothing can move exactly when they hold every slot: each
    waits at line 149, and a slot comes back at line 154 only when one of them
    returns.
   */
  lemma StuckAsWritten(concurrency: nat, p: Pool)
    requires AsWrittenInv(concurrency, p) && p.workers != []
    requires forall i :: 0 <= i < |p.workers| ==> p.workers[i].Descending? && p.workers[i].pending > 0
    ensures (forall m :: !Enabled(concurrency, p, m, false)) <==> |p.workers| == concurrency
  {
    if |p.workers| < concurrency {
      assert Enabled(concurrency, p, Acquire(0), false);
    } else {
      forall m ensures !Enabled(concurrency, p, m, false) {
        match m
        case Acquire(i) =>
        case Finish(i) =>
          if i < |p.workers| {
            assert p.workers[i].Descending?;
          }
        case Descend(i, _) =>
          if i < |p.workers| {
            assert p.workers[i].Descending?;
          }
        case Return(i) =>
          if i < |p.workers| {
            assert p.workers[i].pending > 0;
          }
      }
    }
  }

  /**
    With one slot, as written: the top-level loop starts a probe, the probe
    descends into a page with words to fetch, and then no move is possible
    although a goroutine is still live.
   */
  lemma OneSlotHangsAsWritten(words: nat, nested: nat)
    requires words > 0 && nested > 0
    ensures Enabled(1, Start(words), Acquire(0), false)
    ensures var p1 := Apply(1, Start(words), Acquire(0), false);
      && Enabled(1, p1, Descend(0, nested), false)
      && var p2 := Apply(1, p1, Descend(0, nested), false);
      && p2.workers != []
      && forall m :: !Enabled(1, p2, m, false)
  {
    var p1 := Apply(1, Start(words), Acquire(0), false);
    var p2 := Apply(1, p1, Descend(0, nested), false);
    assert p2 == Pool(1, words - 1, [Descending(nested)]);
    StuckAsWritten(1, p2);
  }

  /**
    Releasing the slot before the nested call: with at least one slot, as long
    as any goroutine is live or any top-level word is left, some move is
    possible.
   */
  lemma NeverStuckWhenReleased(concurrency: nat, p: Pool)
    requires concurrency >= 1 && ReleasedInv(concurrency, p)
    requires p.workers != [] || p.main > 0
    ensures exists m :: Enabled(concurrency, p, m, true)
  {
    if i :| 0 <= i < |p.workers| && p.workers[i].Probing? {
      ProbersSplit(p.workers, i);
      assert Enabled(concurrency, p, Finish(i), true);
    } else {
      NoProbers(p.workers);
      if i :| 0 <= i < |p.workers| && p.workers[i].pending > 0 {
        assert Enabled(concurrency, p, Acquire(i), true);
      } else if p.workers != [] {
        assert Enabled(concurrency, p, Return(0), true);
      } else {
        assert Enabled(concurrency, p, Acquire(|p.workers|), true);
      }
    }
  }

  lemma {:induction false} NoProbers(ws: seq<Worker>)
    requires forall i :: 0 <= i < |ws| ==> !ws[i].Probing?
    ensures Probers(ws) == 0
    decreases |ws|
  {
    if ws != [] {
      NoProbers(ws[1..]);
    }
  }
}
