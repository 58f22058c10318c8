# IVTA core in Dafny

A Dafny model of the scanning core of IVTA, a Go toolkit for web reconnaissance.
It covers:

- **Directory fuzzer** (`fuzzer/dir_fuzzer.go`). It expands a wordlist with
  extensions and probes every candidate under a base URL. Responses matched by the
  blacklist are discarded. A hit is recorded with its status, byte length, word
  count and non-blank line count. It descends into directory listings up to a
  configured depth.
- **Parameter fuzzer** (`fuzzer/param_fuzzer.go`). It appends `param=symbol` to the
  target and looks for the symbol in the first 1024 bytes read from the response.
- **Parameter miner**, in its two variants:
  - `miner/bruter.go` scores four difference signals and flags a parameter at two.
  - `miner/miner.go` flags a parameter on any single signal.

  Both share the request builder and most of `compareResponses`. Both files declare
  `compareResponses` and `BruteForce` in package `miner`. The `miner` command uses
  the `bruter.go` variant; here the two live in separate modules (`Bruter`, `Miner`).
- **Baseline extractor** (`miner/extractor.go`). Candidate names come from JSON keys,
  the words of short plain-text errors, form fields, JavaScript declarations and map
  keys. They are then junk-filtered and de-duplicated in first-occurrence order.
- **Reflection validator** (`validator/validator.go`). Its three stages are:
  reflected query values, an appended marker, and special characters that come back
  unfiltered. The source wires them together only in the package's unexported
  `main` (validator.go:35-60), which nothing calls: the `validate` command
  (cmd/validate/validate.go:52) uses `IdentifyReflectedParams`, the first stage
  alone. `Validate` models that pipeline as written. The `CheckRedirect` override
  at validator.go:36-38 sits in that `main`, so on the command's path the client
  follows redirects; `fetch` stands for the response after them.
- **`miner` command** (`cmd/Param_miner/mine.go`). It parses `-H`/`-d` pairs and
  runs the per-target loop.
- **Configuration checks** (`config/config.go`), **`MergeUnique`** and
  **`ParseIntSlice`** (`utils/utils.go`).

Go library behaviour the core depends on is written out in `Text` and `Seqs`:

- `strings.TrimSpace`, `Fields`, `Split`, `Contains`;
- `unicode.IsSpace`;
- UTF-8 byte length;
- `strconv.Atoi` with 64-bit range.

The three regular expressions whose matches the core uses directly are hand-written
leftmost-first scanners (`Scanners`): `<.*?>`, the `var|let|const` declaration
pattern and `[A-Za-z][A-Za-z0-9_]*`.

The environment enters as function-valued parameters. The model uses them instead
of performing I/O.

| Parameter | Stands for |
|---|---|
| `fetch` / `send` / `get` | HTTP requests; they return the response and, for the miner, the elapsed seconds |
| `resolve` | `url.Parse` plus `path.Join` |
| `parse` | `url.Parse` with `Query()` |
| `matches` | compiled blacklist regexes |
| `Extractor.Engines` | the JSON decoder, and the capture lists of the three extractor regexes `reInputs`, `reEmptyVars`, `reMapKeys` |

Goroutine pools are modelled as sequential filters. Where Go leaves the output
order unspecified, the result keeps input order or is a set.

Modules, in dependency order:

- `Wrappers`, `Seqs`, `Text`, `Http`, `Utils`, `Scanners`;
- `Config`, `Requests`, `Bruter`, `Miner`, `Extractor`;
- `ParamFuzzer`, `DirFuzzer`, `Validator`, `MineCommand`.

## Model

| member | source | states |
|---|---|---|
| Config.ValidateURL | config/config.go:238-242 | validateURL's case-sensitive prefix test; ValidateURLScheme and ValidateURLIsCaseSensitive state what it accepts |
| Config.ValidateURLScheme | config/config.go:238-242 | a URL is accepted exactly when its scheme, the text before the first "://", is `http` or `https` |
| Config.ValidateURLIsCaseSensitive | config/config.go:238-242 | for every URL: an accepted one starts with lower-case `http`, and one starting with an upper-case letter is never accepted |
| Config.CheckTargets | config/config.go:89-95 | missing target iff both the URL and the list file are empty; invalid scheme iff a URL is given and fails validateURL; success implies a target exists and any URL is valid |
| Config.NormalizeMethod | config/config.go:169 | the hybrid method after trim-then-upper has no surrounding white space, no lower-case letter, is no longer than the input, and equals the trimmed input up to letter case |
| Config.UpperKeepsSpace | config/config.go:169 | upper-casing a character neither creates nor removes white space |
| Config.TrimUpperCommute | config/config.go:169 | trimming before or after ToUpper gives the same string |
| Config.LoadHybridAsWritten | config/config.go:157-175 | fields are trimmed, a non-empty URL is validated, and "missing target" is decided on the untrimmed values |
| Config.HybridBlankTargetAccepted | config/config.go:157-162 | a blank-but-non-empty URL with no list file is accepted and trimmed to "", leaving no target |
| Config.LoadHybrid | config/config.go:157-175 | with trimming first, an accepted configuration always names a target; missing iff both fields are all white space |
| Config.RemoveDuplicates | config/config.go:271-281 | the result is the input without repeats, each item at its first occurrence, no element added or lost, order by first index |
| Seqs.DedupIdempotent | config/config.go:271-281 | removing duplicates twice gives the same list as removing them once |
| Config.DedupLoop | config/config.go:272-280 | the seen-set loop computes the first-occurrence de-duplication |
| Config.SaveResults | config/config.go:243-256 | sitemap URLs pass unchanged; the other four lists are de-duplicated, keeping their element sets |
| Utils.MergeUnique | utils/utils.go:32-44 | no repeats; the elements are those of both lists; the de-duplicated first list comes first, then only new items from the second; the result is the plain concatenation iff that has no repeats |
| Utils.AtoiDecimal | utils/utils.go:95 | strconv.Atoi reads back the canonical decimal form of every 64-bit integer |
| Utils.ParseIntSlice | utils/utils.go:87-102 | at most one integer per comma field, each in 64-bit range; the empty string gives none (which integer a field gives: ParseIntSliceField) |
| Utils.ParseIntSliceConcat | utils/utils.go:87-102 | fields are parsed independently and in order: "a,b" gives the integers of a, then those of b |
| Utils.ParseIntSliceField | utils/utils.go:87-102 | a field without a comma is trimmed and gives its 64-bit decimal value, or nothing when it is blank or not a decimal integer; with ParseIntSliceConcat this fixes the result for every input |
| Utils.ParseIntSliceRoundTrip | utils/utils.go:87-102 | parsing a comma-joined list of 64-bit decimals gives the list back |
| Utils.SplitConcat | utils/utils.go:89 | strings.Split at a separator splits the two sides independently |
| Text.TrimSpaceIdempotent | config/config.go:161-169 | strings.TrimSpace is idempotent |
| Text.TrimSpaceEmptyIff | fuzzer/dir_fuzzer.go:202 | a line trims to "" exactly when it is all white space |
| Text.SplitJoin | fuzzer/dir_fuzzer.go:199 | strings.Split inverts joining separator-free pieces with the separator |
| Text.FieldsEmptyIff | fuzzer/dir_fuzzer.go:198 | strings.Fields finds no field exactly when the text is all white space |
| Text.FieldsJoin | fuzzer/dir_fuzzer.go:198 | strings.Fields recovers the words of a space-joined list of non-empty space-free words |
| Text.ByteLenConcat | fuzzer/dir_fuzzer.go:211 | the byte length of a string is additive over concatenation |
| Scanners.StripTags | miner/bruter.go:227-229 | removing `<.*?>` matches never lengthens the text; StripTagsRemovesTags, StripTagsOfTagFree and StripTagsIdempotent state what it removes |
| Scanners.StripTagsRemovesTags | miner/bruter.go:227-229 | after tag removal no `<` is closed by a `>` on the same line |
| Scanners.StripTagsOfTagFree | miner/bruter.go:227-229 | text without tags is left unchanged |
| Scanners.StripTagsIdempotent | miner/bruter.go:227-229 | removing tags twice removes nothing more |
| Scanners.MatchDecl | miner/bruter.go:26 | a declaration match ends at `=`, and its name is a non-empty `\w` run occurring in the text; in strict mode the name does not start with a digit; MatchDeclOf states that every declaration is matched |
| Scanners.NameThenEqOf | miner/bruter.go:26 | a `\w` name (not digit-initial in strict mode), optional white space and `=` at the start of the text are matched, capturing exactly the name |
| Scanners.MatchDeclOf | miner/bruter.go:26 | `var`, `let` or `const`, at least one white-space character, a name, optional white space and `=` are matched at the start of the text, capturing the name and ending right after the `=` |
| Scanners.DeclaredNames | miner/extractor.go:76-81 | every captured name is a non-empty `\w` run occurring in the text; in strict mode none starts with a digit; DeclaredNamesOfScript states that every declaration is found |
| Scanners.DeclaredNamesOfDecl | miner/extractor.go:15 | after a declaration at the start of the text the scan captures its name and resumes right after its `=` |
| Scanners.DeclaredNamesSkip | miner/extractor.go:15 | letter-free text ending in a non-`\w` character holds no declaration and leaves a word boundary behind it |
| Scanners.DeclaredNamesOfScript | miner/extractor.go:15 | for a script of statements `kw name = value;` with letter-free values, the captured names are exactly the declared names, in order |
| Scanners.JsVariables | miner/bruter.go:231-240 | every declared variable name is non-empty, starts with a non-digit and occurs in the HTML |
| Scanners.JsVariablesOfScript | miner/bruter.go:231-240 | every variable a script of statements `kw name = value;` declares is found, in order, and nothing else |
| Scanners.Words | miner/extractor.go:65 | every word found starts with a letter and consists of `\w` characters; WordsOfJoin states that every such word is found |
| Scanners.WordsOfJoin | miner/extractor.go:12 | letter-initial `\w` words separated by single spaces are all found, in order, and nothing else |
| Requests.DoRequest | miner/bruter.go:91-154 | the method is matched case-insensitively; unknown methods and XML without an "xml" entry fail; GET puts the data in the query; POST, JSON and XML use POST with the matching Content-Type, and caller headers override it |
| Requests.MethodCaseInsensitive | miner/bruter.go:94 | two spellings of a method with the same upper case build the same request |
| Requests.XmlIgnoresOtherData | miner/bruter.go:131-137 | an XML request sends only the "xml" entry; other data entries do not change it |
| Requests.HeaderChanges | miner/bruter.go:166-174 | a header is reported iff the baseline has a first value that differs from the second response's; the report is "old -> new" |
| Requests.SameRedirect | miner/bruter.go:209-214 | the common redirect is non-empty iff both Location headers are non-empty and equal, and is then that Location |
| Requests.SameRedirectSymmetric | miner/bruter.go:209-214 | the common redirect does not depend on the order of the two responses |
| Requests.CommonFactors | miner/bruter.go:156-225 | the status is kept iff both statuses agree; with an unread body only the status and header parts are set; otherwise it holds the shared body, the equal stripped text of different bodies, the common redirect, and the time and byte-length differences |
| Requests.IdenticalBodiesNoDiff | miner/bruter.go:183-219 | identical bodies give zero length difference and are reported as the same body |
| Bruter.CompareResponses | miner/bruter.go:195-207 | a parameter (value) counts as missing iff both bodies were read, the baseline contains it and the second body does not; a missing parameter reports the whole wordlist |
| Bruter.TimeSignalIffFaster | miner/bruter.go:250 | the signal `Abs(d) > d*1.3` fires exactly when the second response was faster |
| Bruter.LengthSignalStrict | miner/bruter.go:253 | a difference of exactly 100 bytes either way does not count |
| Bruter.Score | miner/bruter.go:242-257 | the score is at most 4 and is 0 iff no signal fires |
| Bruter.IsFlagged | miner/bruter.go:242-257 | a parameter is flagged when its score reaches two; FlaggedIffTwoSignals states this as "at least two of the four signals" |
| Bruter.FlaggedIffTwoSignals | miner/bruter.go:242-257 | a parameter is flagged iff at least two of the four signals fire |
| Bruter.IdenticalBodiesNotFlagged | miner/bruter.go:195-257 | two byte-identical read bodies are never flagged, whatever the timing |
| Bruter.UnreadBodyNotFlagged | miner/bruter.go:178-181 | when a body cannot be read, no signal fires |
| Bruter.AnalyzeParameter | miner/bruter.go:58-89 | it succeeds iff both requests can be built and sent; the factors compare the baseline with the request that sets the parameter |
| Bruter.WithParam | miner/bruter.go:71-75 | the second request's options: the method and headers unchanged, the data with the parameter set to the value and every other entry kept |
| Bruter.WithParamOverwrites | miner/bruter.go:75 | setting a parameter a second time keeps only the last value |
| Bruter.SecondRequestCarriesParam | miner/bruter.go:71-76 | for GET, the second request's query carries the parameter with the test value |
| Bruter.BruteForce | miner/bruter.go:259-299 | the found parameters are exactly the wordlist entries whose analysis succeeds and flags, kept in wordlist order; a flagged entry is found as often as the wordlist holds it, an unflagged one never |
| Miner.CompareResponses | miner/miner.go:144-202 | the shared factors, with a parameter (value) missing iff both bodies were read and the second lacks it |
| Miner.IsFlagged | miner/miner.go:238 | any one of a missing value, a missing parameter, a slowdown over one second or growth by over 100 bytes flags; MissingValueFlags, ShrinkDoesNotFlagOnLength and VariantsDisagree state its consequences |
| Miner.MissingValueFlags | miner/miner.go:183-188 | a second body without the value always flags the parameter |
| Miner.ShrinkDoesNotFlagOnLength | miner/miner.go:238 | the length test is signed: a body that shrinks by more than 100 bytes is not flagged on length |
| Miner.UnreadBodyNotFlagged | miner/miner.go:172-199 | unreadable bodies never flag |
| Miner.VariantsDisagree | miner/miner.go:183-188 | two identical empty bodies are flagged by this variant and not by the scoring one |
| Miner.Define | miner/miner.go:41-70 | it succeeds iff both requests are built and sent; the factors compare them |
| Miner.BruteForce | miner/miner.go:222-254 | the found parameters are exactly the wordlist entries whose comparison succeeds and flags, in wordlist order; a flagged entry is found as often as the wordlist holds it, an unflagged one never |
| Miner.UnreflectedValueReported | miner/miner.go:238 | a probed parameter whose read second response lacks the test value is reported |
| Extractor.IsNotJunk | miner/extractor.go:20-22 | `^[A-Za-z0-9_]+$`: a non-empty run of `\w` characters; FilterDedup and ExtractPotentialParams state that exactly such names are kept |
| Extractor.ExtractKeys | miner/extractor.go:24-38 | the member keys of every object at any depth, duplicates kept; ExtractKeysIff and ExtractKeysCount state which and how many |
| Extractor.ExtractKeysCount | miner/extractor.go:24-38 | one key is collected per object member at any depth, duplicates included |
| Extractor.ExtractKeysIff | miner/extractor.go:24-38 | a string is collected iff some object at any depth has it as a member key |
| Extractor.TypedCandidates | miner/extractor.go:47-67 | JSON keys only for a JSON Content-Type with a decodable body; words and the hint only for a text/plain body under 200 bytes; nothing otherwise |
| Extractor.HintWithoutParameter | miner/extractor.go:56-62 | the missing-parameter hint needs one of "required", "missing", "not found", "requires" and one of "param", "field"; the "parameter" test is subsumed by "param" |
| Extractor.Candidates | miner/extractor.go:40-95 | the candidates are the typed candidates, the three engine capture lists and the declaration scan, all of them: a name is a candidate iff one of the five lists holds it, and the count is the sum of their lengths |
| Extractor.CandidatesHaveScriptNames | miner/extractor.go:76-81 | whatever the Content-Type, every name a script of statements `kw name = value;` declares is a candidate |
| Extractor.ExtractPotentialParams | miner/extractor.go:40-120 | the result has no repeats; it holds exactly the candidates that pass isNotJunk, ordered by first occurrence; wordsExist iff something was found or the typed step set it |
| Extractor.FilterDedup | miner/extractor.go:97-113 | junk filtering then first-seen de-duplication keeps exactly the non-junk candidates, in first-occurrence order |
| Extractor.JsonKeysNeedJsonType | miner/extractor.go:47-54 | without a JSON or text/plain Content-Type the candidates are the regex captures only, and wordsExist iff a name is found |
| Extractor.ExtractParamsFromBaseline | miner/extractor.go:122-130 | it fails iff the body cannot be read, and otherwise extracts from the body and headers |
| ParamFuzzer.AddParamToURL | fuzzer/param_fuzzer.go:89-94 | the target followed by `&` (if it already holds `?`) or `?`, then `param=symbol` verbatim |
| ParamFuzzer.AddParamToURLSplits | fuzzer/param_fuzzer.go:89-94 | for a target without `?` the first `?` of the result ends the target |
| ParamFuzzer.IsReflected | fuzzer/param_fuzzer.go:96-102 | a reflection is only reported for a symbol that lies in the first 1024 bytes; the empty symbol is always reported |
| ParamFuzzer.LateSymbolMissed | fuzzer/param_fuzzer.go:96-102 | a symbol occurring only beyond the first 1024 bytes is never seen |
| ParamFuzzer.FullReadDecides | fuzzer/param_fuzzer.go:96-102 | when the single Read fills the buffer, the test is exactly containment in the first 1024 bytes |
| ParamFuzzer.FuzzParameters | fuzzer/param_fuzzer.go:35-87 | the reported URLs are exactly the probe URLs whose response reflects the symbol, each reported as often as it is probed |
| DirFuzzer.CleanWord | fuzzer/dir_fuzzer.go:84-85 | a wordlist line trimmed of white space and then of leading `/`; the result does not start with `/` |
| DirFuzzer.Dotted | fuzzer/dir_fuzzer.go:92-94 | an extension given a leading `.` when it lacks one; the result starts with `.` |
| DirFuzzer.Expand | fuzzer/dir_fuzzer.go:89-97 | a word's forms start with the word itself and are all non-empty segments without a leading `/`; ExpandShape gives the exact list |
| DirFuzzer.ExpandShape | fuzzer/dir_fuzzer.go:90-97 | a word's forms are the word, then one `word.ext` per non-empty extension in order (a `.` added when missing) |
| DirFuzzer.Candidates | fuzzer/dir_fuzzer.go:82-98 | every candidate segment is non-empty and starts with no `/` |
| DirFuzzer.CandidatesConcat | fuzzer/dir_fuzzer.go:82-98 | candidates are produced word by word |
| Seqs.FilterMultiplicity | miner/bruter.go:276-280 | a filter keeps every copy of an item that passes and none of one that fails |
| DirFuzzer.ReadWordlist | fuzzer/dir_fuzzer.go:42-61 | every word read is non-blank and already trimmed |
| DirFuzzer.ReadWordlistMembers | fuzzer/dir_fuzzer.go:51-56 | a word is read iff it is the non-blank trim of some line |
| DirFuzzer.CandidatesOfRead | fuzzer/dir_fuzzer.go:52-86 | expanding the read words gives the same candidates as expanding the raw lines, since the expansion trims again |
| DirFuzzer.CandidateOfLine | fuzzer/dir_fuzzer.go:83-97 | every form of a kept wordlist line (the word, then one per non-empty extension) is a candidate |
| DirFuzzer.LineOfCandidate | fuzzer/dir_fuzzer.go:83-97 | every candidate is a form of some kept wordlist line |
| DirFuzzer.CandidatesIff | fuzzer/dir_fuzzer.go:83-97 | a string is a candidate iff it is a form of some kept wordlist line |
| DirFuzzer.CandidatesCount | fuzzer/dir_fuzzer.go:82-98 | duplicates are kept: (kept words) × (1 + non-empty extensions) candidates |
| DirFuzzer.WordCount | fuzzer/dir_fuzzer.go:198 | the number of strings.Fields of the body; it is zero iff the line count is (WordCountZeroIffLineCountZero) |
| DirFuzzer.LineCount | fuzzer/dir_fuzzer.go:199-205 | the number of `\n`-separated lines that do not trim to ""; CountNonBlankLoop is the loop and LineCountZeroIff says when it is zero |
| DirFuzzer.LineCountZeroIff | fuzzer/dir_fuzzer.go:199-205 | a body has no non-blank line exactly when it is all white space |
| DirFuzzer.WordCountZeroIffLineCountZero | fuzzer/dir_fuzzer.go:198-205 | a body has no words exactly when it has no non-blank lines |
| DirFuzzer.RuleFires | fuzzer/dir_fuzzer.go:252-301 | some blacklist rule matches the response; PassesBlacklistFilters is the loop form, and EmptyBlacklistPasses and BlacklistMonotone state when rules fire |
| DirFuzzer.PassesBlacklistFilters | fuzzer/dir_fuzzer.go:252-301 | a response passes iff no status, length, word-count, line-count, search-word or regex rule matches |
| DirFuzzer.Listed | fuzzer/dir_fuzzer.go:253-257 | the list loop answers true iff the value is listed |
| DirFuzzer.CountNonBlankLoop | fuzzer/dir_fuzzer.go:274-280 | the loop counts the lines that do not trim to "" |
| DirFuzzer.AnySearchWord | fuzzer/dir_fuzzer.go:287-292 | true iff some lower-cased search word occurs in the lower-cased body |
| DirFuzzer.AnyRegex | fuzzer/dir_fuzzer.go:294-298 | true iff some compiled pattern matches the body |
| DirFuzzer.SearchWordFiresIff | fuzzer/dir_fuzzer.go:287-292 | the search-word rule fires iff some search word occurs, case-insensitively |
| DirFuzzer.RegexFiresIff | fuzzer/dir_fuzzer.go:294-298 | the regex rule fires iff some pattern matches |
| DirFuzzer.EmptyBlacklistPasses | fuzzer/dir_fuzzer.go:252-301 | with every list empty, every response passes |
| DirFuzzer.EmptySearchWordRejects | fuzzer/dir_fuzzer.go:287-292 | an empty search word rejects every response |
| DirFuzzer.SearchWordCaseInsensitive | fuzzer/dir_fuzzer.go:287-292 | a search word occurring in the body in any letter case rejects it |
| DirFuzzer.BlacklistMonotone | fuzzer/dir_fuzzer.go:252-301 | lengthening any blacklist can only reject more responses |
| DirFuzzer.CompileRegexes | fuzzer/dir_fuzzer.go:69-80 | the kept patterns are exactly the non-empty ones that compile, in order |
| DirFuzzer.Descends | fuzzer/dir_fuzzer.go:222-235 | the descent conditions: depth below the bound, status 200, 301, 302 or 403, an HTML Content-Type, no configured extension ending the URL, and a listing body; Probe states that a descent happens iff they hold |
| DirFuzzer.Probe | fuzzer/dir_fuzzer.go:162-235 | a probe records a result only for a read response that passes the blacklist, measured from its body; it descends iff the depth, status, HTML type, non-file URL and listing-body conditions hold |
| DirFuzzer.ProbeAll | fuzzer/dir_fuzzer.go:130-243 | every hit of one level is recorded at that depth; every spawned call is one level deeper and was justified by its probe; each hit and call comes from a word of the list resolved under the base URL (and conversely: ProbeAllComplete, ProbeAllSpawns) |
| DirFuzzer.ProbeAllComplete | fuzzer/dir_fuzzer.go:130-243 | every word resolving to a URL whose probe is recorded yields that hit |
| DirFuzzer.ProbeAllSpawns | fuzzer/dir_fuzzer.go:130-235 | every word resolving to a URL whose probe descends spawns the call for that URL one level deeper |
| DirFuzzer.Run | fuzzer/dir_fuzzer.go:118-244 | every hit of the recursive descent lies within the depth bound and records a read response that passed the blacklist (provenance: RunProvenance; conversely: RunComplete) |
| DirFuzzer.RunDepthFloor | fuzzer/dir_fuzzer.go:234 | calls only go deeper: no hit lies below the shallowest pending call |
| DirFuzzer.RunSplit | fuzzer/dir_fuzzer.go:130-244 | the order of pending calls does not change what is found: a queue finds exactly the union of the hits of its two parts |
| DirFuzzer.RunSingle | fuzzer/dir_fuzzer.go:118-244 | one call within the depth bound finds the hits of its own level and then those of the calls it spawns |
| DirFuzzer.RunMember | fuzzer/dir_fuzzer.go:118-244 | a pending call's hits are all found by the run of the whole queue |
| DirFuzzer.RunComplete | fuzzer/dir_fuzzer.go:118-244 | no pending call within the depth bound is lost: every word under its URL whose probe is recorded yields that hit |
| DirFuzzer.RunProvenance | fuzzer/dir_fuzzer.go:118-244 | every hit of a run was probed as a candidate under a URL that one of the pending calls reaches through descents, at the hit's depth |
| DirFuzzer.ReachesTrans | fuzzer/dir_fuzzer.go:222-235 | a URL reached from a URL the root reaches is reached from the root |
| DirFuzzer.ProbedUnderChild | fuzzer/dir_fuzzer.go:222-235 | a hit of a spawned call was probed under a URL its parent call reaches |
| DirFuzzer.TargetProvenance | fuzzer/dir_fuzzer.go:118-244 | every hit of the run from the target was probed under a URL the target reaches |
| DirFuzzer.ReachedRuns | fuzzer/dir_fuzzer.go:222-235 | whatever a URL reached through descents from the target finds, the run from the target finds too |
| DirFuzzer.ReachableReported | fuzzer/dir_fuzzer.go:63-250 | every candidate under a URL reached through descents from the target, within the depth bound, whose probe is recorded, is found at the depth of that URL |
| DirFuzzer.FuzzDirectories | fuzzer/dir_fuzzer.go:63-250 | over the candidate words `env.words` (FuzzWordlist builds them from the wordlist lines): every hit lies at a depth between 1 and the configured depth, records a read response that passed the blacklist, and was probed as a candidate under a URL reached through descents from the target (ProbedUnder); conversely, every candidate under a URL reached from the target within that depth, whose probe is recorded, is reported at that depth |
| DirFuzzer.FuzzWordlist | fuzzer/dir_fuzzer.go:63-130 | the run whose words are the expanded wordlist lines: every hit is sound as in FuzzDirectories, and every form of every kept line is probed under every URL reached within the depth, its recorded probes reported |
| DirFuzzer.NothingBelowDepthOne | fuzzer/dir_fuzzer.go:120-122 | a configured depth below 1 probes nothing |
| DirFuzzer.FirstLevelComplete | fuzzer/dir_fuzzer.go:130-220 | at the first level nothing is missed: each candidate whose response is read and passes the blacklist is reported at depth 1 |
| DirFuzzer.StuckAsWritten | fuzzer/dir_fuzzer.go:148-234 | for a run in which every live goroutine holds the slot it took (AsWrittenInv) and all are inside a descent with words left, no move of the step relation is enabled exactly when they are as many as the slots |
| DirFuzzer.AsWrittenStep | fuzzer/dir_fuzzer.go:148-154 | as written, every move keeps each live goroutine holding exactly one slot, and never more slots taken than exist |
| DirFuzzer.OneSlotHangsAsWritten | fuzzer/dir_fuzzer.go:148-234 | with one slot, the top-level loop starting one probe that descends into a page with words left is a reachable state with a live goroutine and no enabled move |
| DirFuzzer.ReleasedStep | fuzzer/dir_fuzzer.go:148-234 | with the slot released before descending, every move keeps exactly the probing goroutines holding slots, within the bound |
| DirFuzzer.NeverStuckWhenReleased | fuzzer/dir_fuzzer.go:148-234 | with the slot released before descending and at least one slot, while any goroutine is live or any top-level word is left, some move is enabled |
| Validator.ValuesReflected | validator/validator.go:141-147 | true iff some value of the key occurs in the body |
| Validator.InspectUrl | validator/validator.go:116-149 | a request error or an unread body of an inspected response is an error; 3xx and non-HTML typed responses yield nothing; otherwise the keys reported are those with a value in the body |
| Validator.CheckReflected | validator/validator.go:107-150 | an unparsable URL is an error; the reported keys are keys of the URL's query |
| Validator.EmptyValueReflected | validator/validator.go:141-147 | a parameter with an empty value is reported by every inspected page |
| Validator.Mutate | validator/validator.go:157-161 | the parameter is set to its first value plus the suffix; the location and every other key are unchanged |
| Validator.QueryGet | validator/validator.go:158 | url.Values.Get: the first value of a key that has one; a non-empty answer is a value of that key |
| Validator.QueryGetAfterMutate | validator/validator.go:158-159 | reading the parameter back after the mutation gives its old first value followed by the suffix |
| Validator.CheckAppend | validator/validator.go:152-172 | an unparsable URL is the only cause of the URL error; otherwise it succeeds iff inspecting the mutated URL succeeds, and answers whether the parameter is among the reported keys |
| Validator.CheckAppendIff | validator/validator.go:152-172 | the check succeeds with true iff the URL parses and the mutated request's inspected body contains the first value plus the suffix |
| Validator.ProcessAppendedCheck | validator/validator.go:76-86 | a check is passed on iff checkAppend with the fixed suffix `iy3j4h234hjb23234` answers true; CheckAppendIff says when that is |
| Validator.InjectionSuffix | validator/validator.go:91-92 | the probe value is "aprefix", the character, then "asuffix" |
| Validator.ProcessCharInjection | validator/validator.go:88-105 | the unfiltered characters are exactly the special characters that come back, in the tried order |
| Validator.ProcessReflectedParams | validator/validator.go:62-74 | one check is emitted per reflected parameter, for the same URL; an error emits none |
| Validator.InputTargets | validator/validator.go:47-52 | the targets are exactly the non-blank input lines, trimmed |
| Validator.Validate | validator/validator.go:35-105 | the reports are exactly the trimmed input targets with a parameter that passed all three stages and at least one character that came back, each with those characters |
| Validator.ReportedParamInQuery | validator/validator.go:62-105 | every reported parameter is a query key of its target; every reported character is a special one |
| MineCommand.ParsePairs | cmd/Param_miner/mine.go:39-59 | the empty option gives the empty map, otherwise the kept pairs are folded in order; PairsMap, LastPairWins and ParsePairsRoundTrip state its keys, values and round trip |
| MineCommand.ParsePair | cmd/Param_miner/mine.go:43-46 | a pair is kept iff it splits on `:` into exactly two parts; the key and value kept are trimmed and hold no `:` |
| MineCommand.ParsePairPadded | cmd/Param_miner/mine.go:43-46 | white space around the key and the value, on either side of the `:`, is dropped and nothing else is |
| MineCommand.ParsePairOf | cmd/Param_miner/mine.go:43-46 | two `:`-free sides joined by one `:` give the pair of their trimmed forms |
| MineCommand.PairsMap | cmd/Param_miner/mine.go:42-47 | the map's keys are exactly the keys of the kept pairs |
| MineCommand.LastPairWins | cmd/Param_miner/mine.go:42-47 | for a repeated key, the last kept pair decides the value |
| MineCommand.ColonInValueDropped | cmd/Param_miner/mine.go:43-44 | a value that itself holds a `:` makes the pair disappear |
| MineCommand.ParsePairsRoundTrip | cmd/Param_miner/mine.go:39-59 | writing distinct plain keys with plain values as "k1:v1,k2:v2" and parsing gives back exactly those pairs |
| MineCommand.Options | cmd/Param_miner/mine.go:61-65 | the method is passed on; empty -H or -d options give empty maps |
| MineCommand.MergeExtracted | cmd/Param_miner/mine.go:76-85 | extracted names are merged in front only when extraction succeeded and reported words; the wordlist never loses a word |
| MineCommand.MineTarget | cmd/Param_miner/mine.go:70-91 | a target is skipped iff the baseline request cannot be built or sent, and then the wordlist is unchanged; otherwise the wordlist carried on is exactly the merge of the names extracted from the baseline into the given one, and the brute force runs over it and finds only words in it |
| MineCommand.Execute | cmd/Param_miner/mine.go:36-100 | one outcome per target; the wordlist only grows across targets and contains every parameter found |
| MineCommand.ExecuteInOrder | cmd/Param_miner/mine.go:36-100 | outcome i is that of target i mined with the wordlist the first i targets left (WordlistAfter, a left fold of the per-target step), and the final wordlist is the one after all targets |

## Left out

- Concurrency: goroutine pools, semaphores, `sync`, `context` cancellation and timeouts. Pools are sequential filters. A cancelled context (bruter.go:286-293, dir_fuzzer.go:124-135) is not modelled.
- Bruter.BruteForce, Miner.BruteForce, DirFuzzer.FuzzDirectories, ParamFuzzer.FuzzParameters: a concurrency of at least 1 is assumed. With `-c 0` or less, the two BruteForce pools (bruter.go:264-265, miner.go:227-228) start no worker and return no parameter, while the models return every flagged one. With `-c 0`, the semaphores made at dir_fuzzer.go:103 and param_fuzzer.go:45 are unbuffered, so the first send (dir_fuzzer.go:149, param_fuzzer.go:59) blocks for good. With a negative `-c`, `make` panics there. The models have no concurrency parameter and cover none of these outcomes.
- The order of goroutine results. Results keep input order, or are sets (the validator's reports).
- The depth-first order of the directory fuzzer. Its recursive calls run inside each probe's goroutine; the model runs a worklist instead. When the program terminates it reports the same set of hits: `RunSplit` shows that the order of pending calls does not change the set, and `FuzzDirectories` reports exactly the recorded probes of candidates under the URLs reached from the target, within the depth bound. The program need not terminate, though (see Findings); the worklist models the descent with the slot released.
- Wall-clock timing. Elapsed seconds are inputs returned by `send`.
- JSON decoding. It is `Engines.parseJson`. JSON object member order is one fixed sequence, since Go map iteration order is unspecified.
- The three extractor regexes `reInputs`, `reEmptyVars`, `reMapKeys`. They are capture-list engines. The declaration pattern `reJSVarDeclaration` is written out as `Scanners.DeclaredNames`.
- Blacklist regex matching. It is the `matches` parameter; `regexp.Compile` success is the `compiles` parameter.
- URL parsing, `url.PathEscape`, `path.Join`, and `url.Values.Encode`/`String`. The checks receive the parsed and mutated `Url` directly, so the re-encoding round trip is not modelled.
- HTTP header canonicalisation. Header keys are taken as already canonical.
- Multiple values of a header other than its first value.
- The User-Agent header set by the directory fuzzer.
- Case mapping: `strings.ToLower`/`ToUpper` are modelled on ASCII letters only.
- Invalid UTF-8 bodies. Bodies are sequences of Unicode scalar values; byte lengths are their UTF-8 lengths. The param fuzzer works on raw bytes.
- Extractor.ExtractPotentialParams: the reshuffle of the caller's `wordlist` (extractor.go:103-109) is not modelled. It is local to the call apart from Go slice aliasing, and the command merges the returned names itself.
- The unset `LinesNum` and `LinesDiff` fields. They are always zero/empty and are modelled as such.
- Crawlers, the sitemap parser, the CLI flag parsing and the `Load*Config` functions, except the target checks and the hybrid check. They are outside this core.
- `SaveResults` file creation and JSON encoding. Only the de-duplicated record is modelled.
- Output printing and the progress counters.
- Reading the wordlist and target files. Their lines are inputs. `DirFuzzer.FuzzWordlist` takes the directory wordlist's lines, reads them with `ReadWordlist` and expands them with `Candidates` before the run, then runs `FuzzDirectories` over the result.
- MineCommand.ParsePairs: its contract states only the empty case and that it is the fold of the pair entries. Its keys, values and round trip are proved in `PairsMap`, `LastPairWins`, `ColonInValueDropped` and `ParsePairsRoundTrip`; the trimming of each pair is stated by `ParsePair` and `ParsePairPadded`.
- Bruter.AnalyzeParameter, Bruter.WithParam: every parameter is probed against the caller's unchanged options. In the source, `modifiedOptions := options` copies the struct but not its `Data` map, which mine.go:50 makes afresh for each target of the loop at mine.go:36, and which the same target's parameters all share. So `Data[param] = "test-value"` (bruter.go:71-75) writes into that shared map: each later parameter's baseline and probe also carry every earlier parameter, and with `-c` of 2 or more the map is written by several goroutines at once, which the Go runtime treats as a fatal error. This aliasing is not modelled.
- Bruter.BruteForce, Miner.Define, Miner.BruteForce: the same shared `Data` map (miner.go:54-58) is not modelled; each parameter is probed on its own.
- Bruter.BruteForce: the `ctx.Err()` error return after cancellation is not modelled, so the command never skips a target for it.

## Findings

| source | as written | input that shows it | evidently intended | confidence | as-written member | corrected member |
|---|---|---|---|---|---|---|
| config/config.go:157-162 | the "no target" check runs on the untrimmed URL and list file, and trimming happens afterwards | `-u "   "` with no `-tl`: the check passes, then the URL trims to "", so the configuration names no target and skips URL validation | trim first, then require a non-empty target | not executed | Config.HybridBlankTargetAccepted | Config.LoadHybrid |
| fuzzer/dir_fuzzer.go:148-234 | the loop takes a semaphore slot for each probe (line 149) and the probe's goroutine gives it back only when it returns (lines 153-154), yet that goroutine runs the nested fuzz call itself (line 234), whose loop needs slots of the same semaphore | `-c 1` with the default `-d 2` and a first-level candidate that descends (status 200, HTML type, a body with "<html"): its goroutine holds the only slot while the nested loop waits for one; cmd/fuzz/fuzz.go:110 passes context.Background(), so nothing ends the wait. At the default `-c 5`, five descents in flight do the same | release the slot before descending, or descend after the worker returns | not executed | DirFuzzer.StuckAsWritten | DirFuzzer.NeverStuckWhenReleased |
