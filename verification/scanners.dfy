/**
  Hand-written scanners for the three fixed regular expressions whose matches
  the tool uses directly:

    `<.*?>`                                           (HTML tag remover)
    `\b(var|let|const)\s+([a-zA-Z_][a-zA-Z0-9_]*)\s*=` (declared JavaScript names)
    `[A-Za-z][A-Za-z0-9_]*`                           (words of a short text body)

  Each scanner follows RE2's leftmost-first, non-overlapping search: `.` does not
  match a newline and `\s` is the class `[\t\n\f\r ]`.
 */
module Scanners {
  import opened Wrappers
  import opened Text

  /** RE2's `\s`. */
  predicate IsReSpace(c: char) {
    c == '\t' || c == '\n' || c == '\U{0C}' || c == '\r' || c == ' '
  }

  /** The length of the run of `\w` characters that starts `t`. */
  function WordSpan(t: string): (k: nat)
    ensures k <= |t|
    ensures forall i :: 0 <= i < k ==> IsWordChar(t[i])
    ensures k == |t| || !IsWordChar(t[k])
  {
    if |t| == 0 || !IsWordChar(t[0]) then 0 else 1 + WordSpan(t[1..])
  }

  /** The length of the run of `\s` characters that starts `t`. */
  function ReSpaceSpan(t: string): (k: nat)
    ensures k <= |t|
    ensures forall i :: 0 <= i < k ==> IsReSpace(t[i])
    ensures k == |t| || !IsReSpace(t[k])
  {
    if |t| == 0 || !IsReSpace(t[0]) then 0 else 1 + ReSpaceSpan(t[1..])
  }

  // ---------------------------------------------------------------------------
  // `<.*?>`

  /** The index of the `>` closing a tag whose `<` came just before `t`, if no newline comes first. */
  function TagClose(t: string): (r: Option<nat>)
    ensures r.Some? ==> r.value < |t| && t[r.value] == '>' && '\n' !in t[..r.value]
  {
    if |t| == 0 || t[0] == '\n' then None
    else if t[0] == '>' then Some(0)
    else
      match TagClose(t[1..])
      case None => None
      case Some(j) =>
        assert t[..j + 1] == [t[0]] + t[1..][..j];
        Some(j + 1)
  }

  /** Some `<` of `s` is closed by a `>` on the same line. */
  predicate HasTag(s: string) {
    exists i :: 0 <= i < |s| && s[i] == '<' && TagClose(s[i + 1..]).Some?
  }

  /** tagRegex.ReplaceAllString(s, ""): every shortest `<...>` on one line is cut out. */
  function StripTags(s: string): (r: string)
    ensures |r| <= |s|
    decreases |s|
  {
    if |s| == 0 then []
    else if s[0] == '<' && TagClose(s[1..]).Some? then
      StripTags(s[1..][TagClose(s[1..]).value + 1..])
    else [s[0]] + StripTags(s[1..])
  }

  /** Cutting tags out of text with no `>` before its first newline adds no such `>`. */
  lemma {:induction false} StripTagsKeepsOpenLine(t: string)
    requires TagClose(t).None?
    ensures TagClose(StripTags(t)).None?
    decreases |t|
  {
    if |t| > 0 && t[0] != '\n' {
      assert TagClose(t[1..]).None?;
      StripTagsKeepsOpenLine(t[1..]);
      var r := StripTags(t);
      assert r == [t[0]] + StripTags(t[1..]);
      assert r[1..] == StripTags(t[1..]);
    }
  }

  /** No tag survives: the output holds no `<` closed by a `>` on the same line. */
  lemma {:induction false} StripTagsRemovesTags(s: string)
    ensures !HasTag(StripTags(s))
    decreases |s|
  {
    if |s| > 0 {
      if s[0] == '<' && TagClose(s[1..]).Some? {
        StripTagsRemovesTags(s[1..][TagClose(s[1..]).value + 1..]);
      } else {
        StripTagsRemovesTags(s[1..]);
        var r := StripTags(s);
        var r' := StripTags(s[1..]);
        assert r == [s[0]] + r';
        forall i | 0 <= i < |r| && r[i] == '<'
          ensures TagClose(r[i + 1..]).None?
        {
          if i == 0 {
            assert r[1..] == r';
            StripTagsKeepsOpenLine(s[1..]);
          } else {
            assert r[i] == r'[i - 1];
            assert r[i + 1..] == r'[i..];
          }
        }
      }
    }
  }

  /** Text without tags passes through unchanged. */
  lemma {:induction false} StripTagsOfTagFree(s: string)
    requires !HasTag(s)
    ensures StripTags(s) == s
    decreases |s|
  {
    if |s| > 0 {
      assert s[0] == '<' ==> TagClose(s[1..]).None?;
      forall i | 0 <= i < |s[1..]| && s[1..][i] == '<'
        ensures TagClose(s[1..][i + 1..]).None?
      {
        assert s[i + 1] == '<';
        assert s[1..][i + 1..] == s[i + 2..];
      }
      StripTagsOfTagFree(s[1..]);
    }
  }

  /** Removing tags twice removes nothing more. */
  lemma StripTagsIdempotent(s: string)
    ensures StripTags(StripTags(s)) == StripTags(s)
  {
    StripTagsRemovesTags(s);
    StripTagsOfTagFree(StripTags(s));
  }

  // ---------------------------------------------------------------------------
  // `\b(var|let|const)\s+(NAME)\s*=`

  /** The length of the declaration keyword that starts `t`, or 0. */
  function KeywordLen(t: string): (n: nat)
    ensures n <= |t|
  {
    if |t| >= 3 && ((t[0] == 'v' && t[1] == 'a' && t[2] == 'r') || (t[0] == 'l' && t[1] == 'e' && t[2] == 't')) then 3
    else if |t| >= 5 && t[0] == 'c' && t[1] == 'o' && t[2] == 'n' && t[3] == 's' && t[4] == 't' then 5
    else 0
  }

  /**
    The name captured by a declaration that starts `t`, and the length of the match.
    With `strict` the name must not start with a digit (`[a-zA-Z_][a-zA-Z0-9_]*`);
    without it any run of `\w` will do (`\w+`).
   */
  function MatchDecl(t: string, strict: bool): (m: Option<(string, nat)>)
    ensures m.Some? ==> 0 < m.value.1 <= |t| && t[m.value.1 - 1] == '='
    ensures m.Some? ==> IsWord(m.value.0)
    ensures m.Some? && strict ==> !IsDigit(m.value.0[0])
    ensures m.Some? ==> exists b :: OccursAt(t, m.value.0, b)
  {
    var a := KeywordLen(t);
    if a == 0 then None
    else
      var sp := ReSpaceSpan(t[a..]);
      if sp == 0 then None
      else
        NameAt(t, a + sp, strict)
  }

  /** The `(NAME)\s*=` part of a declaration at offset `b` of `t`, with the match length counted from the start of `t`. */
  function NameAt(t: string, b: nat, strict: bool): (m: Option<(string, nat)>)
    requires b <= |t|
    ensures m.Some? ==> b < m.value.1 <= |t| && t[m.value.1 - 1] == '='
    ensures m.Some? ==> IsWord(m.value.0) && (strict ==> !IsDigit(m.value.0[0]))
    ensures m.Some? ==> OccursAt(t, m.value.0, b)
  {
    var m := NameThenEq(t[b..], strict);
    if m.Some? then
      MatchInSuffix(t, b, m.value.0, m.value.1);
      Some((m.value.0, b + m.value.1))
    else None
  }

  /** A name and `=` found in a suffix of `t` sit at the same places in `t`, shifted by `b`. */
  lemma MatchInSuffix(t: string, b: nat, name: string, k: nat)
    requires b <= |t| && 0 < k <= |t| - b && t[b..][k - 1] == '=' && OccursAt(t[b..], name, 0)
    ensures t[b + k - 1] == '=' && OccursAt(t, name, b)
  {
    assert t[b..b + |name|] == t[b..][0..|name|];
  }

  /** The `(NAME)\s*=` part of a declaration, at the start of `u`. */
  function NameThenEq(u: string, strict: bool): (m: Option<(string, nat)>)
    ensures m.Some? ==> 0 < m.value.1 <= |u| && u[m.value.1 - 1] == '='
    ensures m.Some? ==> IsWord(m.value.0) && (strict ==> !IsDigit(m.value.0[0]))
    ensures m.Some? ==> OccursAt(u, m.value.0, 0)
  {
    var n := WordSpan(u);
    if n == 0 || (strict && IsDigit(u[0])) then None
    else
      var d := n + ReSpaceSpan(u[n..]);
      if d < |u| && u[d] == '=' then
        assert u[0..n] == u[..n];
        Some((u[..n], d + 1))
      else None
  }

  /**
    FindAllStringSubmatch for the declaration pattern, keeping the captured
    names. `afterWord` says whether the character before `s` is a `\w`
    character, which rules out a match at the start of `s` (`\b`).
   */
  function DeclaredNames(s: string, afterWord: bool, strict: bool): (names: seq<string>)
    ensures forall i :: 0 <= i < |names| ==> IsWord(names[i]) && (strict ==> !IsDigit(names[i][0]))
    ensures forall i :: 0 <= i < |names| ==> Contains(s, names[i])
    decreases |s|
  {
    if |s| == 0 then []
    else
      var m := MatchDecl(s, strict);
      if !afterWord && m.Some? then
        var rest := DeclaredNames(s[m.value.1..], false, strict);
        ContainsAllOfSuffix(s, m.value.1, rest);
        NamesCons(s, m.value.0, rest, strict)
      else
        var rest := DeclaredNames(s[1..], IsWordChar(s[0]), strict);
        ContainsAllOfSuffix(s, 1, rest);
        rest
  }

  /** A matched name in front of the names found after it. */
  function NamesCons(s: string, name: string, rest: seq<string>, strict: bool): (names: seq<string>)
    requires IsWord(name) && (strict ==> !IsDigit(name[0])) && Contains(s, name)
    requires forall i :: 0 <= i < |rest| ==> IsWord(rest[i]) && (strict ==> !IsDigit(rest[i][0]))
    requires forall i :: 0 <= i < |rest| ==> Contains(s, rest[i])
    ensures names == [name] + rest
    ensures forall i :: 0 <= i < |names| ==> IsWord(names[i]) && (strict ==> !IsDigit(names[i][0]))
    ensures forall i :: 0 <= i < |names| ==> Contains(s, names[i])
  {
    var names := [name] + rest;
    assert forall i :: 1 <= i < |names| ==> names[i] == rest[i - 1];
    names
  }

  // Completeness of the declaration scanner

  /** A run of RE2 `\s` characters. */
  predicate ReSpaces(s: string) {
    forall i :: 0 <= i < |s| ==> IsReSpace(s[i])
  }

  predicate IsKeyword(kw: string) {
    kw == "var" || kw == "let" || kw == "const"
  }

  /** The text `kw sp name sp2 = rest`, a declaration followed by whatever comes after its `=`. */
  function DeclOf(kw: string, sp: string, name: string, sp2: string, rest: string): string {
    kw + (sp + (name + (sp2 + ("=" + rest))))
  }

  lemma {:induction false} ReSpaceSpanOf(sp: string, u: string)
    requires ReSpaces(sp) && (u == [] || !IsReSpace(u[0]))
    ensures ReSpaceSpan(sp + u) == |sp|
    decreases |sp|
  {
    if |sp| == 0 {
      assert sp + u == u;
    } else {
      assert (sp + u)[1..] == sp[1..] + u;
      ReSpaceSpanOf(sp[1..], u);
    }
  }

  lemma {:induction false} WordSpanOf(w: string, u: string)
    requires forall i :: 0 <= i < |w| ==> IsWordChar(w[i])
    requires u == [] || !IsWordChar(u[0])
    ensures WordSpan(w + u) == |w|
    decreases |w|
  {
    if |w| == 0 {
      assert w + u == u;
    } else {
      assert (w + u)[1..] == w[1..] + u;
      WordSpanOf(w[1..], u);
    }
  }

  lemma KeywordOf(kw: string, x: string)
    requires IsKeyword(kw)
    ensures KeywordLen(kw + x) == |kw|
  {
    var t := kw + x;
    assert t[0] == kw[0] && t[1] == kw[1] && t[2] == kw[2];
    if kw == "const" {
      assert t[3] == kw[3] && t[4] == kw[4];
    }
  }

  /** `NAME sp2 =` is matched at the start of the text, capturing `NAME`. */
  lemma NameThenEqOf(name: string, sp2: string, rest: string, strict: bool)
    requires IsWord(name) && ReSpaces(sp2) && (strict ==> !IsDigit(name[0]))
    ensures var m := NameThenEq(name + (sp2 + ("=" + rest)), strict);
      m.Some? && m.value.0 == name && m.value.1 == |name| + |sp2| + 1
  {
    var tail := sp2 + ("=" + rest);
    var u := name + tail;
    assert tail[0] == (if sp2 == [] then '=' else sp2[0]);
    WordSpanOf(name, tail);
    assert u[|name|..] == tail;
    ReSpaceSpanOf(sp2, "=" + rest);
    assert u[|name| + |sp2|] == '=';
    assert u[..|name|] == name;
    assert u[0] == name[0];
  }

  /** A keyword, then spaces, then a matched `NAME\s*=`: a declaration. */
  lemma MatchDeclSplit(t: string, a: nat, sp: string, u: string, strict: bool)
    requires KeywordLen(t) == a && 0 < a <= |t| && t[a..] == sp + u
    requires 0 < |sp| && ReSpaceSpan(sp + u) == |sp| && NameThenEq(u, strict).Some?
    ensures var m := MatchDecl(t, strict);
      m.Some? && m.value.0 == NameThenEq(u, strict).value.0 && m.value.1 == a + |sp| + NameThenEq(u, strict).value.1
  {
    assert t[a + |sp|..] == (sp + u)[|sp|..] == u;
  }

  /** A declaration at the start of the text is matched, and its name captured. */
  lemma MatchDeclOf(kw: string, sp: string, name: string, sp2: string, rest: string, strict: bool)
    requires IsKeyword(kw) && sp != [] && ReSpaces(sp) && ReSpaces(sp2)
    requires IsWord(name) && (strict ==> !IsDigit(name[0]))
    ensures var m := MatchDecl(DeclOf(kw, sp, name, sp2, rest), strict);
      m.Some? && m.value.0 == name && m.value.1 == |kw| + |sp| + |name| + |sp2| + 1
  {
    var u := name + (sp2 + ("=" + rest));
    var t := DeclOf(kw, sp, name, sp2, rest);
    KeywordOf(kw, sp + u);
    ReSpaceSpanOf(sp, u);
    NameThenEqOf(name, sp2, rest, strict);
    MatchDeclSplit(t, |kw|, sp, u, strict);
  }

  /** What comes after the `=` of a declaration. */
  lemma DeclOfRest(kw: string, sp: string, name: string, sp2: string, rest: string)
    ensures DeclOf(kw, sp, name, sp2, rest)[|kw| + |sp| + |name| + |sp2| + 1..] == rest
  {
    var e := "=" + rest;
    var u := name + (sp2 + e);
    assert (sp2 + e)[|sp2| + 1..] == rest;
    assert u[|name| + |sp2| + 1..] == rest;
    assert (sp + u)[|sp| + |name| + |sp2| + 1..] == rest;
  }

  /** After a declaration the scan goes on right behind its `=`, and finds the names there. */
  lemma DeclaredNamesOfDecl(kw: string, sp: string, name: string, sp2: string, rest: string, strict: bool)
    requires IsKeyword(kw) && sp != [] && ReSpaces(sp) && ReSpaces(sp2)
    requires IsWord(name) && (strict ==> !IsDigit(name[0]))
    ensures DeclaredNames(DeclOf(kw, sp, name, sp2, rest), false, strict) == [name] + DeclaredNames(rest, false, strict)
  {
    var t := DeclOf(kw, sp, name, sp2, rest);
    MatchDeclOf(kw, sp, name, sp2, rest, strict);
    DeclOfRest(kw, sp, name, sp2, rest);
    var m := MatchDecl(t, strict);
    assert t[m.value.1..] == rest;
    assert DeclaredNames(t, false, strict) == [m.value.0] + DeclaredNames(t[m.value.1..], false, strict);
  }

  /** Text without letters holds no keyword; ending in a non-`\w` character, it leaves a word boundary behind. */
  lemma {:induction false} DeclaredNamesSkip(f: string, rest: string, afterWord: bool, strict: bool)
    requires f != [] && !IsWordChar(f[|f| - 1])
    requires forall i :: 0 <= i < |f| ==> !IsLetter(f[i])
    ensures DeclaredNames(f + rest, afterWord, strict) == DeclaredNames(rest, false, strict)
    decreases |f|
  {
    var s := f + rest;
    assert s[0] == f[0];
    assert KeywordLen(s) == 0;
    assert s[1..] == f[1..] + rest;
    if |f| > 1 {
      DeclaredNamesSkip(f[1..], rest, IsWordChar(f[0]), strict);
    }
  }

  /** One statement `kw name = value;` of a script, with a letter-free value such as a number. */
  datatype Decl = Decl(kw: string, name: string, value: string)

  predicate ValidDecl(d: Decl, strict: bool) {
    && IsKeyword(d.kw) && IsWord(d.name) && (strict ==> !IsDigit(d.name[0]))
    && forall i :: 0 <= i < |d.value| ==> !IsLetter(d.value[i])
  }

  /** What follows the `=` of a statement: ` value;`. */
  function ValueText(d: Decl): string {
    " " + d.value + ";"
  }

  /** The statements `kw name = value;` one after another. */
  function Script(ds: seq<Decl>): string {
    if |ds| == 0 then []
    else DeclOf(ds[0].kw, " ", ds[0].name, " ", ValueText(ds[0]) + Script(ds[1..]))
  }

  function DeclNames(ds: seq<Decl>): (names: seq<string>)
    ensures |names| == |ds|
    ensures forall i :: 0 <= i < |ds| ==> names[i] == ds[i].name
  {
    if |ds| == 0 then [] else [ds[0].name] + DeclNames(ds[1..])
  }

  /** The scanner finds every declared name of a script, in order, and nothing else. */
  lemma {:induction false} DeclaredNamesOfScript(ds: seq<Decl>, strict: bool)
    requires forall i :: 0 <= i < |ds| ==> ValidDecl(ds[i], strict)
    ensures DeclaredNames(Script(ds), false, strict) == DeclNames(ds)
    decreases |ds|
  {
    if |ds| > 0 {
      var d := ds[0];
      assert ValidDecl(d, strict);
      var tail := ValueText(d);
      forall i | 0 <= i < |tail| ensures !IsLetter(tail[i]) {
        if 0 < i < |tail| - 1 {
          assert tail[i] == d.value[i - 1];
        }
      }
      DeclaredNamesOfDecl(d.kw, " ", d.name, " ", tail + Script(ds[1..]), strict);
      DeclaredNamesSkip(tail, Script(ds[1..]), false, strict);
      DeclaredNamesOfScript(ds[1..], strict);
    }
  }

  /** extractJSVariables / extractJavaScriptVariables: the names declared in `html`. */
  function JsVariables(html: string): (names: seq<string>)
    ensures forall i :: 0 <= i < |names| ==> names[i] != [] && !IsDigit(names[i][0])
    ensures forall i :: 0 <= i < |names| ==> Contains(html, names[i])
  {
    DeclaredNames(html, false, true)
  }

  /** Every variable a script declares is found, in order. */
  lemma JsVariablesOfScript(ds: seq<Decl>)
    requires forall i :: 0 <= i < |ds| ==> ValidDecl(ds[i], true)
    ensures JsVariables(Script(ds)) == DeclNames(ds)
  {
    DeclaredNamesOfScript(ds, true);
  }

  // ---------------------------------------------------------------------------
  // `[A-Za-z][A-Za-z0-9_]*`

  /** reWords.FindAllString(s, -1): the maximal `\w` runs that start at a letter. */
  function Words(s: string): (words: seq<string>)
    ensures forall i :: 0 <= i < |words| ==> IsWord(words[i]) && IsLetter(words[i][0])
    decreases |s|
  {
    if |s| == 0 then []
    else if IsLetter(s[0]) then
      var k := WordSpan(s);
      [s[..k]] + Words(s[k..])
    else Words(s[1..])
  }

  /** Letter-initial words separated by single spaces are all found, in order. */
  lemma {:induction false} WordsOfJoin(ws: seq<string>)
    requires forall i :: 0 <= i < |ws| ==> IsWord(ws[i]) && IsLetter(ws[i][0])
    ensures Words(Join(ws, ' ')) == ws
    decreases |ws|
  {
    if |ws| == 1 {
      var w := ws[0];
      WordSpanOf(w, []);
      assert w + [] == w;
      assert w[..|w|] == w && w[|w|..] == [];
    } else if |ws| > 1 {
      var w := ws[0];
      var s := Join(ws, ' ');
      var rest := Join(ws[1..], ' ');
      assert s == w + ([' '] + rest);
      WordSpanOf(w, [' '] + rest);
      assert s[..|w|] == w;
      assert s[|w|..] == [' '] + rest;
      assert ([' '] + rest)[1..] == rest;
      WordsOfJoin(ws[1..]);
      assert ws == [w] + ws[1..];
    }
  }
}
