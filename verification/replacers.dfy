/** Replacer generation in `utils.js`: `generateScriptReplacers` over the
    tokenizer's token list, and `generateTemplateReplacers` (its `onattribute`
    handler and `parseExpressionInTemplate`) over the markup parser's events.
    A replacer may rewrite the source (`oldText` to `newText`), may record a
    catalog entry (`origin` under `hash`), and may be marked as a script one. */
module Replacers {
  import opened Wrappers
  import opened Strings
  import opened Text
  import opened Patterns

  datatype TokenKind = StringToken | TemplateToken | OtherToken

  /** A token as the tokenizer returns it; `value` is the raw source text,
      quotes and backticks included. */
  datatype Token = Token(kind: TokenKind, value: string)

  /** The markup parser's callbacks, in document order. */
  datatype MarkupEvent = Attribute(name: string, value: string) | TextEvent(text: string)

  /** `{origin, hash}`: the catalog entry a replacer contributes. */
  datatype Entry = Entry(origin: string, hash: string)

  datatype Replacer = Replacer(rewrite: Option<Rewrite>, entry: Option<Entry>, isScript: bool)

  /** The entry for an extracted text: its key is `getTextKey(origin)`. */
  function EntryFor(origin: string, md5: string -> Md5Hex): (e: Entry)
    ensures e.origin == origin && NoSpace(e.hash)
  {
    Entry(origin, GetTextKey(origin, md5))
  }

  /** `T("hash")` */
  function Call(tm: string, hash: string): string {
    tm + "(\"" + hash + "\")"
  }

  /** `T('hash')`, used inside a single-quoted context. */
  function CallSingleQuoted(tm: string, hash: string): string {
    tm + "('" + hash + "')"
  }

  /** `T("hash","origin")`: script calls carry the original text as fallback. */
  function CallWithOrigin(tm: string, hash: string, origin: string): string {
    tm + "(\"" + hash + "\",\"" + origin + "\")"
  }

  // ---------------------------------------------------------------------------
  // generateScriptReplacers

  predicate IsCandidate(t: Token) {
    t.kind == StringToken || t.kind == TemplateToken
  }

  /** A matching String token: every occurrence of its literal is replaced by
      a call carrying its trimmed, unquoted text. */
  function StringReplacer(value: string, tm: string, md5: string -> Md5Hex): (r: Result<Replacer>)
    ensures r.Ok? <==> RemoveQuotes(value).Ok?
    ensures r.Ok? ==> IsScriptReplacer(r.value)
    ensures r.Ok? ==> r.value.rewrite.value.pattern == GlobalLiteral(value)
    ensures r.Ok? ==> r.value.entry.value == EntryFor(TrimText(RemoveQuotes(value).value), md5)
    ensures r.Ok? ==> r.value.rewrite.value.newText
                      == CallWithOrigin(tm, r.value.entry.value.hash, r.value.entry.value.origin)
    ensures r.Err? ==> r.error == QuotesMissing
  {
    var body :- RemoveQuotes(value);
    var e := EntryFor(TrimText(body), md5);
    Ok(Replacer(Some(Rewrite(GlobalLiteral(value), CallWithOrigin(tm, e.hash, e.origin))), Some(e), true))
  }

  /** The groups of `^([`}])([\s\S]*)((\${)|`)` on a Template token. */
  datatype TemplateParts = TemplateParts(open: char, body: string, close: string)

  /** A closing `${` or backtick at `k`; the alternation tries `${` first. */
  function CloserAt(v: string, k: nat): Option<string> {
    if OccursAt(v, "${", k) then Some("${")
    else if k < |v| && v[k] == '`' then Some("`")
    else None
  }

  /** The largest `k` in `[1, hi]` with a closer: the greedy body backtracks
      from the end. */
  function LastCloser(v: string, hi: int): (r: Option<nat>)
    ensures r.Some? ==> 1 <= r.value <= hi && CloserAt(v, r.value).Some?
    ensures r.Some? ==> forall k :: r.value < k <= hi ==> CloserAt(v, k).None?
    ensures r.None? ==> forall k :: 1 <= k <= hi ==> CloserAt(v, k).None?
    decreases hi
  {
    if hi < 1 then None
    else if CloserAt(v, hi).Some? then Some(hi)
    else LastCloser(v, hi - 1)
  }

  function SplitTemplate(v: string): (r: Option<TemplateParts>)
    ensures r.Some? ==> |v| > 0 && v[0] == r.value.open && (r.value.open == '`' || r.value.open == '}')
    ensures r.Some? ==> r.value.close == "${" || r.value.close == "`"
    ensures r.Some? ==> 1 + |r.value.body| + |r.value.close| <= |v|
    ensures r.Some? ==> v[..1 + |r.value.body| + |r.value.close|] == [r.value.open] + r.value.body + r.value.close
    ensures r.Some? ==> forall k :: 1 + |r.value.body| < k ==> CloserAt(v, k).None?
    ensures r.None? <==>
      (|v| == 0 || (v[0] != '`' && v[0] != '}') || forall k :: 1 <= k ==> CloserAt(v, k).None?)
  {
    if |v| == 0 || (v[0] != '`' && v[0] != '}') then None
    else match LastCloser(v, |v| - 1)
      case None =>
        assert forall k :: |v| <= k ==> CloserAt(v, k).None?;
        None
      case Some(k) =>
        var close := CloserAt(v, k).value;
        assert v[k..k + |close|] == close;
        assert v[..k + |close|] == [v[0]] + v[1..k] + v[k..k + |close|];
        assert forall k' :: |v| <= k' ==> CloserAt(v, k').None?;
        Some(TemplateParts(v[0], v[1..k], close))
  }

  /** A matching Template token whose text splits: its first occurrence is
      replaced by the same delimiters around an interpolated call. */
  function TemplateReplacer(value: string, parts: TemplateParts, tm: string, md5: string -> Md5Hex): (r: Replacer)
    ensures r.isScript && r.entry.Some? && r.entry.value == EntryFor(TrimText(parts.body), md5)
    ensures r.rewrite.Some? && r.rewrite.value.pattern == Literal(value)
    ensures r.rewrite.value.newText
            == [parts.open] + "${" + CallWithOrigin(tm, r.entry.value.hash, r.entry.value.origin) + "}" + parts.close
  {
    var e := EntryFor(TrimText(parts.body), md5);
    Replacer(Some(Rewrite(Literal(value), [parts.open] + "${" + CallWithOrigin(tm, e.hash, e.origin) + "}" + parts.close)),
             Some(e), true)
  }

  /** The token is skipped, or is handled without an error. */
  predicate TokenOk(t: Token, matches: string -> bool) {
    || !IsCandidate(t) || !matches(t.value)
    || (t.kind == StringToken && RemoveQuotes(t.value).Ok?)
    || (t.kind == TemplateToken && SplitTemplate(t.value).Some?)
  }

  predicate AllTokensOk(tokens: seq<Token>, matches: string -> bool) {
    forall i :: 0 <= i < |tokens| ==> TokenOk(tokens[i], matches)
  }

  lemma AllTokensOkCons(tokens: seq<Token>, matches: string -> bool)
    requires |tokens| > 0
    ensures AllTokensOk(tokens, matches) <==> TokenOk(tokens[0], matches) && AllTokensOk(tokens[1..], matches)
  {
    if TokenOk(tokens[0], matches) && AllTokensOk(tokens[1..], matches) {
      forall i | 0 <= i < |tokens| ensures TokenOk(tokens[i], matches) {
        if i > 0 {
          assert tokens[i] == tokens[1..][i - 1];
        }
      }
    }
  }

  /** The String values that match, each once. */
  function MatchingStrings(tokens: seq<Token>, matches: string -> bool): set<string> {
    if tokens == [] then {}
    else (if tokens[0].kind == StringToken && matches(tokens[0].value) then {tokens[0].value} else {})
         + MatchingStrings(tokens[1..], matches)
  }

  /** The literals of the global (String-token) replacers, in order. */
  function GlobalTexts(rs: seq<Replacer>): seq<string> {
    if rs == [] then []
    else (if rs[0].rewrite.Some? && rs[0].rewrite.value.pattern.GlobalLiteral?
          then [rs[0].rewrite.value.pattern.text] else [])
         + GlobalTexts(rs[1..])
  }

  predicate Distinct(s: seq<string>) {
    forall i, j :: 0 <= i < j < |s| ==> s[i] != s[j]
  }

  lemma GlobalTextsAppend(a: seq<Replacer>, b: seq<Replacer>)
    ensures GlobalTexts(a + b) == GlobalTexts(a) + GlobalTexts(b)
  {
    if a == [] {
      assert a + b == b;
    } else {
      assert (a + b)[1..] == a[1..] + b;
      GlobalTextsAppend(a[1..], b);
    }
  }

  lemma GlobalTextsSingle(r: Replacer)
    ensures GlobalTexts([r]) == if r.rewrite.Some? && r.rewrite.value.pattern.GlobalLiteral?
                                then [r.rewrite.value.pattern.text] else []
  {
    assert [r][1..] == [];
  }

  predicate IsScriptReplacer(r: Replacer) {
    r.isScript && r.rewrite.Some? && r.entry.Some?
  }

  predicate AllScript(rs: seq<Replacer>) {
    forall k :: 0 <= k < |rs| ==> IsScriptReplacer(rs[k])
  }

  lemma SingleScript(r: Replacer, t: Token, matches: string -> bool, seen: set<string>)
    requires IsScriptReplacer(r)
    requires r.rewrite.value.pattern.GlobalLiteral? <==> t.kind == StringToken
    requires t.kind == StringToken ==> r.rewrite.value.pattern.text == t.value
    requires matches(t.value) && !(t.kind == StringToken && t.value in seen)
    ensures AllScript([r])
    ensures GlobalTexts([r]) == NewGlobal(t, matches, seen)
  {
    GlobalTextsSingle(r);
  }

  /** The `targets` set after a token: a matching String value is recorded. */
  function Advance(t: Token, matches: string -> bool, seen: set<string>): set<string> {
    if t.kind == StringToken && matches(t.value) then seen + {t.value} else seen
  }

  /** The String value a token adds to the global replacers, if any. */
  function NewGlobal(t: Token, matches: string -> bool, seen: set<string>): seq<string> {
    if t.kind == StringToken && matches(t.value) && t.value !in seen then [t.value] else []
  }

  /** No token of the list is a matching candidate. */
  predicate NothingMatches(tokens: seq<Token>, matches: string -> bool) {
    forall i :: 0 <= i < |tokens| ==> !IsCandidate(tokens[i]) || !matches(tokens[i].value)
  }

  /** One step of the token loop: no replacer, one, or the error the token
      raises. */
  function TokenReplacers(t: Token, matches: string -> bool, tm: string, md5: string -> Md5Hex,
                          seen: set<string>): (r: Result<seq<Replacer>>)
    ensures r.Ok? ==> |r.value| <= 1
    ensures r.Ok? ==> AllScript(r.value)
    ensures r.Ok? ==> GlobalTexts(r.value) == NewGlobal(t, matches, seen)
    ensures !IsCandidate(t) || !matches(t.value) ==> r == Ok([])
  {
    if !IsCandidate(t) || !matches(t.value) || (t.kind == StringToken && t.value in seen) then Ok([])
    else if t.kind == StringToken then
      match StringReplacer(t.value, tm, md5)
      case Err(e) => Err(e)
      case Ok(rep) =>
        SingleScript(rep, t, matches, seen);
        Ok([rep])
    else
      match SplitTemplate(t.value)
      case None => Err(SyntaxIncompatible)
      case Some(parts) =>
        var rep := TemplateReplacer(t.value, parts, tm, md5);
        SingleScript(rep, t, matches, seen);
        Ok([rep])
  }

  /** A token fails exactly when it matches and cannot be handled; a Template
      token that does not split raises "Syntax incompatible". */
  lemma TokenReplacersOk(t: Token, matches: string -> bool, tm: string, md5: string -> Md5Hex, seen: set<string>)
    requires forall v :: v in seen ==> RemoveQuotes(v).Ok?
    ensures TokenReplacers(t, matches, tm, md5, seen).Ok? <==> TokenOk(t, matches)
    ensures t.kind == TemplateToken && matches(t.value) && SplitTemplate(t.value).None? ==>
      TokenReplacers(t, matches, tm, md5, seen) == Err(SyntaxIncompatible)
  {
  }

  /** The token loop from some point on, `seen` being the `targets` set of
      String values already handled. */
  function ScriptReplacersFrom(tokens: seq<Token>, matches: string -> bool, tm: string,
                               md5: string -> Md5Hex, seen: set<string>): (r: Result<seq<Replacer>>)
    ensures r.Ok? ==> AllScript(r.value)
    ensures NothingMatches(tokens, matches) ==> r == Ok([])
    ensures r.Ok? ==> forall v :: v in GlobalTexts(r.value) ==> v in MatchingStrings(tokens, matches) - seen
    ensures r.Ok? ==> Distinct(GlobalTexts(r.value))
    decreases |tokens|
  {
    if tokens == [] then Ok([])
    else
      var t := tokens[0];
      var head :- TokenReplacers(t, matches, tm, md5, seen);
      var rest :- ScriptReplacersFrom(tokens[1..], matches, tm, md5, Advance(t, matches, seen));
      ScriptStep(tokens, matches, seen, head, rest);
      Ok(head + rest)
  }

  /** The properties of the loop carry over one more token. */
  lemma ScriptStep(tokens: seq<Token>, matches: string -> bool, seen: set<string>,
                   head: seq<Replacer>, rest: seq<Replacer>)
    requires |tokens| > 0 && |head| <= 1
    requires AllScript(head) && GlobalTexts(head) == NewGlobal(tokens[0], matches, seen)
    requires AllScript(rest) && Distinct(GlobalTexts(rest))
    requires forall v :: v in GlobalTexts(rest) ==> v in MatchingStrings(tokens[1..], matches) - Advance(tokens[0], matches, seen)
    requires NothingMatches(tokens, matches) ==> head == [] && rest == []
    ensures AllScript(head + rest)
    ensures NothingMatches(tokens, matches) ==> head + rest == []
    ensures forall v :: v in GlobalTexts(head + rest) ==> v in MatchingStrings(tokens, matches) - seen
    ensures Distinct(GlobalTexts(head + rest))
  {
    GlobalTextsAppend(head, rest);
    var g := GlobalTexts(rest);
    var h := GlobalTexts(head) + g;
    forall k | 0 <= k < |head + rest| ensures IsScriptReplacer((head + rest)[k]) {
      if k >= |head| {
        assert (head + rest)[k] == rest[k - |head|];
      }
    }
    if GlobalTexts(head) == [] {
      assert h == g;
    } else {
      DistinctCons(GlobalTexts(head)[0], g);
      assert h == [GlobalTexts(head)[0]] + g;
    }
  }

  lemma DistinctCons(v: string, g: seq<string>)
    requires v !in g && Distinct(g)
    ensures Distinct([v] + g)
  {
    var h := [v] + g;
    forall i, j | 0 <= i < j < |h| ensures h[i] != h[j] {
      assert h[j] == g[j - 1];
      if i > 0 {
        assert h[i] == g[i - 1];
      }
    }
  }

  /** The loop fails exactly when some matching token cannot be handled, and
      every matching String value not yet seen gets its replacer. */
  lemma {:induction false} ScriptReplacersComplete(tokens: seq<Token>, matches: string -> bool, tm: string,
                                                   md5: string -> Md5Hex, seen: set<string>)
    requires forall v :: v in seen ==> RemoveQuotes(v).Ok?
    ensures ScriptReplacersFrom(tokens, matches, tm, md5, seen).Ok? <==> AllTokensOk(tokens, matches)
    ensures var r := ScriptReplacersFrom(tokens, matches, tm, md5, seen);
      r.Ok? ==> forall v :: v in MatchingStrings(tokens, matches) - seen ==> v in GlobalTexts(r.value)
    decreases |tokens|
  {
    if tokens != [] {
      var t := tokens[0];
      AllTokensOkCons(tokens, matches);
      TokenReplacersOk(t, matches, tm, md5, seen);
      var head := TokenReplacers(t, matches, tm, md5, seen);
      if head.Ok? {
        var seen' := Advance(t, matches, seen);
        ScriptReplacersComplete(tokens[1..], matches, tm, md5, seen');
        var rest := ScriptReplacersFrom(tokens[1..], matches, tm, md5, seen');
        if rest.Ok? {
          CompleteStep(tokens, matches, seen, head.value, rest.value);
        }
      }
    }
  }

  /** Completeness carries over one more token. */
  lemma CompleteStep(tokens: seq<Token>, matches: string -> bool, seen: set<string>,
                     head: seq<Replacer>, rest: seq<Replacer>)
    requires |tokens| > 0 && GlobalTexts(head) == NewGlobal(tokens[0], matches, seen)
    requires forall v :: v in MatchingStrings(tokens[1..], matches) - Advance(tokens[0], matches, seen) ==> v in GlobalTexts(rest)
    ensures forall v :: v in MatchingStrings(tokens, matches) - seen ==> v in GlobalTexts(head + rest)
  {
    GlobalTextsAppend(head, rest);
    var t := tokens[0];
    assert MatchingStrings(tokens, matches)
        == (if t.kind == StringToken && matches(t.value) then {t.value} else {}) + MatchingStrings(tokens[1..], matches);
  }

  /** `generateScriptReplacers(script, matchRegex, transMethod)`: one replacer
      per distinct matching String value, one per matching Template token. */
  function ScriptReplacers(script: string, matches: string -> bool, tm: string, md5: string -> Md5Hex,
                           tokenize: string -> seq<Token>): (r: Result<seq<Replacer>>)
    ensures r.Ok? <==> AllTokensOk(tokenize(script), matches)
    ensures r.Ok? ==> Distinct(GlobalTexts(r.value))
    ensures r.Ok? ==> forall v :: v in GlobalTexts(r.value) <==> v in MatchingStrings(tokenize(script), matches)
    ensures r.Ok? ==> Globals(r.value) == StringTokenReplacers(tokenize(script), matches, tm, md5, {})
    ensures r.Ok? ==> Literals(r.value) == TemplateTokenReplacers(tokenize(script), matches, tm, md5)
    ensures r.Ok? ==> ScriptShaped(r.value)
  {
    ScriptReplacersComplete(tokenize(script), matches, tm, md5, {});
    ScriptReplacersShape(tokenize(script), matches, tm, md5, {});
    ScriptReplacersFrom(tokenize(script), matches, tm, md5, {})
  }

  /** The first token that cannot be handled decides the error: a Template
      token that does not split raises "Syntax incompatible". */
  lemma {:induction false} TemplateTokenFails(tokens: seq<Token>, i: nat, matches: string -> bool, tm: string,
                                              md5: string -> Md5Hex, seen: set<string>)
    requires i < |tokens| && AllTokensOk(tokens[..i], matches)
    requires forall v :: v in seen ==> RemoveQuotes(v).Ok?
    requires tokens[i].kind == TemplateToken && matches(tokens[i].value) && SplitTemplate(tokens[i].value).None?
    ensures ScriptReplacersFrom(tokens, matches, tm, md5, seen) == Err(SyntaxIncompatible)
    decreases i
  {
    var t := tokens[0];
    if i == 0 {
      TokenReplacersOk(t, matches, tm, md5, seen);
    } else {
      AllTokensOkCons(tokens[..i], matches);
      assert tokens[..i][0] == t && tokens[..i][1..] == tokens[1..][..i - 1];
      assert tokens[1..][i - 1] == tokens[i];
      TokenReplacersOk(t, matches, tm, md5, seen);
      TemplateTokenFails(tokens[1..], i - 1, matches, tm, md5, Advance(t, matches, seen));
    }
  }

  /** The first-occurrence (Template-token) replacers of a list, in order. */
  function Literals(rs: seq<Replacer>): seq<Replacer> {
    if rs == [] then []
    else (if rs[0].rewrite.Some? && rs[0].rewrite.value.pattern.Literal? then [rs[0]] else [])
         + Literals(rs[1..])
  }

  lemma {:induction false} LiteralsAppend(a: seq<Replacer>, b: seq<Replacer>)
    ensures Literals(a + b) == Literals(a) + Literals(b)
    decreases |a|
  {
    if a == [] {
      assert a + b == b;
    } else {
      assert (a + b)[1..] == a[1..] + b;
      LiteralsAppend(a[1..], b);
    }
  }

  /** What a token contributes as a Template replacer: a matching Template
      token that splits gets one, every other token none. */
  function TemplateTokenReplacer(t: Token, matches: string -> bool, tm: string, md5: string -> Md5Hex): seq<Replacer> {
    if t.kind == TemplateToken && matches(t.value) && SplitTemplate(t.value).Some?
    then [TemplateReplacer(t.value, SplitTemplate(t.value).value, tm, md5)]
    else []
  }

  /** The Template replacers of a token list, one per matching Template token,
      in token order. */
  function TemplateTokenReplacers(tokens: seq<Token>, matches: string -> bool, tm: string, md5: string -> Md5Hex):
    seq<Replacer>
  {
    if tokens == [] then []
    else TemplateTokenReplacer(tokens[0], matches, tm, md5) + TemplateTokenReplacers(tokens[1..], matches, tm, md5)
  }

  /** The global (String-token) replacers of a list, in order. */
  function Globals(rs: seq<Replacer>): seq<Replacer> {
    if rs == [] then []
    else (if rs[0].rewrite.Some? && rs[0].rewrite.value.pattern.GlobalLiteral? then [rs[0]] else [])
         + Globals(rs[1..])
  }

  lemma {:induction false} GlobalsAppend(a: seq<Replacer>, b: seq<Replacer>)
    ensures Globals(a + b) == Globals(a) + Globals(b)
    decreases |a|
  {
    if a == [] {
      assert a + b == b;
    } else {
      assert (a + b)[1..] == a[1..] + b;
      GlobalsAppend(a[1..], b);
    }
  }

  /** What a token contributes as a String replacer: the first matching
      occurrence of a String value with removable quotes gets one. */
  function StringTokenReplacer(t: Token, matches: string -> bool, tm: string, md5: string -> Md5Hex,
                               seen: set<string>): seq<Replacer>
  {
    if t.kind == StringToken && matches(t.value) && t.value !in seen && StringReplacer(t.value, tm, md5).Ok?
    then [StringReplacer(t.value, tm, md5).value]
    else []
  }

  /** The String replacers of a token list: one per distinct matching value,
      at its first occurrence, in token order. */
  function StringTokenReplacers(tokens: seq<Token>, matches: string -> bool, tm: string, md5: string -> Md5Hex,
                                seen: set<string>): seq<Replacer>
    decreases |tokens|
  {
    if tokens == [] then []
    else StringTokenReplacer(tokens[0], matches, tm, md5, seen)
         + StringTokenReplacers(tokens[1..], matches, tm, md5, Advance(tokens[0], matches, seen))
  }

  /** Every replacer of the list rewrites, either every occurrence of a
      literal or its first one. */
  predicate ScriptShaped(rs: seq<Replacer>) {
    forall k :: 0 <= k < |rs| ==>
      rs[k].rewrite.Some? && (rs[k].rewrite.value.pattern.GlobalLiteral? || rs[k].rewrite.value.pattern.Literal?)
  }

  lemma ScriptShapedAppend(a: seq<Replacer>, b: seq<Replacer>)
    requires ScriptShaped(a) && ScriptShaped(b)
    ensures ScriptShaped(a + b)
  {
    forall k | |a| <= k < |a + b| ensures (a + b)[k] == b[k - |a|] {
    }
  }

  /** A one-replacer list, by the kind of its pattern. */
  lemma SingleShape(r: Replacer)
    requires r.rewrite.Some? && (r.rewrite.value.pattern.GlobalLiteral? || r.rewrite.value.pattern.Literal?)
    ensures r.rewrite.value.pattern.GlobalLiteral? ==> Globals([r]) == [r] && Literals([r]) == []
    ensures r.rewrite.value.pattern.Literal? ==> Globals([r]) == [] && Literals([r]) == [r]
    ensures ScriptShaped([r])
  {
    assert [r][1..] == [];
  }

  /** The replacers one token yields: the String replacer or the Template
      replacer the token contributes, or nothing. */
  lemma TokenShape(t: Token, matches: string -> bool, tm: string, md5: string -> Md5Hex, seen: set<string>)
    requires TokenReplacers(t, matches, tm, md5, seen).Ok?
    ensures var head := TokenReplacers(t, matches, tm, md5, seen).value;
      && Globals(head) == StringTokenReplacer(t, matches, tm, md5, seen)
      && Literals(head) == TemplateTokenReplacer(t, matches, tm, md5)
      && ScriptShaped(head)
  {
    if !IsCandidate(t) || !matches(t.value) || (t.kind == StringToken && t.value in seen) {
      assert TokenReplacers(t, matches, tm, md5, seen).value == [];
    } else if t.kind == StringToken {
      var r := StringReplacer(t.value, tm, md5).value;
      assert TokenReplacers(t, matches, tm, md5, seen).value == [r];
      assert StringTokenReplacer(t, matches, tm, md5, seen) == [r];
      assert TemplateTokenReplacer(t, matches, tm, md5) == [];
      SingleShape(r);
    } else {
      var r := TemplateReplacer(t.value, SplitTemplate(t.value).value, tm, md5);
      assert TokenReplacers(t, matches, tm, md5, seen).value == [r];
      assert StringTokenReplacer(t, matches, tm, md5, seen) == [];
      assert TemplateTokenReplacer(t, matches, tm, md5) == [r];
      SingleShape(r);
    }
  }

  /** The loop's replacers: the global ones are exactly the String replacers
      of the first occurrences of the matching values not yet seen, the
      first-occurrence ones exactly the Template replacers of the matching
      Template tokens, both in token order, and there is no other kind. */
  lemma {:induction false} ScriptReplacersShape(tokens: seq<Token>, matches: string -> bool, tm: string,
                                                md5: string -> Md5Hex, seen: set<string>)
    ensures var r := ScriptReplacersFrom(tokens, matches, tm, md5, seen);
      r.Ok? ==>
        && Globals(r.value) == StringTokenReplacers(tokens, matches, tm, md5, seen)
        && Literals(r.value) == TemplateTokenReplacers(tokens, matches, tm, md5)
        && ScriptShaped(r.value)
    decreases |tokens|
  {
    if tokens != [] {
      var t := tokens[0];
      var head := TokenReplacers(t, matches, tm, md5, seen);
      var rest := ScriptReplacersFrom(tokens[1..], matches, tm, md5, Advance(t, matches, seen));
      if head.Ok? && rest.Ok? {
        TokenShape(t, matches, tm, md5, seen);
        ScriptReplacersShape(tokens[1..], matches, tm, md5, Advance(t, matches, seen));
        GlobalsAppend(head.value, rest.value);
        LiteralsAppend(head.value, rest.value);
        ScriptShapedAppend(head.value, rest.value);
      }
    }
  }

  // ---------------------------------------------------------------------------
  // Splitting text into plain and captured pieces (`String.prototype.split`
  // with a capturing separator)

  datatype Piece = Piece(text: string, captured: bool)

  function JoinPieces(ps: seq<Piece>): string {
    if ps == [] then [] else ps[0].text + JoinPieces(ps[1..])
  }

  /** `("[\s\S]*?")|('[\s\S]*?')` can match at `m`: a quote with the same quote
      somewhere after it. */
  predicate QuotedAt(s: string, m: int) {
    0 <= m < |s| && IsQuote(s[m]) && exists j | m < j < |s| :: s[j] == s[m]
  }

  /** A captured quote piece: a quote, then up to the next such quote. */
  predicate QuotedPiece(t: string) {
    |t| >= 2 && IsQuote(t[0]) && t[|t| - 1] == t[0] && forall k | 1 <= k < |t| - 1 :: t[k] != t[0]
  }

  /** A captured `{{…}}` piece. */
  predicate BracedPiece(t: string) {
    |t| >= 4 && OccursAt(t, "{{", 0) && OccursAt(t, "}}", |t| - 2)
  }

  /** Every captured piece is a quoted one. */
  predicate AllQuoted(ps: seq<Piece>) {
    |ps| == 0 || ((ps[0].captured ==> QuotedPiece(ps[0].text)) && AllQuoted(ps[1..]))
  }

  /** Every captured piece is a braced one. */
  predicate AllBraced(ps: seq<Piece>) {
    |ps| == 0 || ((ps[0].captured ==> BracedPiece(ps[0].text)) && AllBraced(ps[1..]))
  }

  /** The leftmost quoted span from `k` on, up to the nearest closing quote. */
  function FirstQuotedFrom(s: string, k: nat): (r: Option<(nat, nat)>)
    ensures r.Some? ==> k <= r.value.0 < r.value.1 < |s|
    decreases |s| - k
  {
    if k >= |s| then None
    else if IsQuote(s[k]) then
      match NextChar(s, s[k], k + 1)
      case Some(j) => Some((k, j))
      case None => FirstQuotedFrom(s, k + 1)
    else FirstQuotedFrom(s, k + 1)
  }

  /** What the search finds is a quoted span: a quote up to its nearest partner. */
  lemma {:induction false} FirstQuotedFromQuoted(s: string, k: nat)
    requires FirstQuotedFrom(s, k).Some?
    ensures QuotedAt(s, FirstQuotedFrom(s, k).value.0)
    ensures QuotedPiece(s[FirstQuotedFrom(s, k).value.0..FirstQuotedFrom(s, k).value.1 + 1])
    decreases |s| - k
  {
    if IsQuote(s[k]) && NextChar(s, s[k], k + 1).Some? {
      var j := NextChar(s, s[k], k + 1).value;
      assert FirstQuotedFrom(s, k) == Some((k, j));
      QuotedPieceAt(s, k, j);
    } else {
      assert FirstQuotedFrom(s, k) == FirstQuotedFrom(s, k + 1);
      FirstQuotedFromQuoted(s, k + 1);
    }
  }

  lemma QuotedPieceAt(s: string, k: nat, j: nat)
    requires k < |s| && IsQuote(s[k]) && NextChar(s, s[k], k + 1) == Some(j)
    ensures QuotedPiece(s[k..j + 1]) && QuotedAt(s, k)
  {
    NextCharFirst(s, s[k], k + 1);
    QuotedSlice(s, k, j);
  }

  /** A quote, other characters, and the same quote again form a quoted piece. */
  lemma QuotedSlice(s: string, k: nat, j: nat)
    requires k < j < |s| && IsQuote(s[k]) && s[j] == s[k]
    requires forall m :: k + 1 <= m < j ==> s[m] != s[k]
    ensures QuotedPiece(s[k..j + 1]) && QuotedAt(s, k)
  {
    var t := s[k..j + 1];
    assert t[0] == s[k];
    assert t[|t| - 1] == s[j];
    forall m | 1 <= m < |t| - 1 ensures t[m] != t[0] {
      assert t[m] == s[k + m];
    }
  }

  /** A quote with a partner after it is found by the search for its partner. */
  lemma PartnerFound(s: string, k: nat)
    requires QuotedAt(s, k)
    ensures NextChar(s, s[k], k + 1).Some?
  {
    NextCharNone(s, s[k], k + 1);
  }

  /** The search skips only places where no quoted span starts. */
  lemma {:induction false} FirstQuotedFromFirst(s: string, k: nat)
    requires FirstQuotedFrom(s, k).Some?
    ensures forall m :: k <= m < FirstQuotedFrom(s, k).value.0 ==> !QuotedAt(s, m)
    decreases |s| - k
  {
    var first := FirstQuotedFrom(s, k).value.0;
    if first != k {
      assert FirstQuotedFrom(s, k) == FirstQuotedFrom(s, k + 1);
      FirstQuotedFromFirst(s, k + 1);
      forall m | k <= m < first ensures !QuotedAt(s, m) {
        if m == k && QuotedAt(s, k) {
          PartnerFound(s, k);
        }
      }
    }
  }

  /** The search finds nothing exactly when no quote has a partner after it. */
  lemma {:induction false} FirstQuotedFromNone(s: string, k: nat)
    ensures FirstQuotedFrom(s, k).None? <==> forall m :: k <= m ==> !QuotedAt(s, m)
    decreases |s| - k
  {
    if k < |s| {
      if QuotedAt(s, k) {
        PartnerFound(s, k);
      } else {
        assert FirstQuotedFrom(s, k) == FirstQuotedFrom(s, k + 1);
        FirstQuotedFromNone(s, k + 1);
        if forall m :: k + 1 <= m ==> !QuotedAt(s, m) {
          forall m | k <= m ensures !QuotedAt(s, m) {
            if m == k {
              assert !QuotedAt(s, k);
            }
          }
        }
      }
    }
  }

  predicate SomeQuoted(s: string) {
    exists m | 0 <= m < |s| :: QuotedAt(s, m)
  }

  /** The split separates something exactly when some quote has a partner
      after it (`tokens.length > 1`). */
  lemma QuoteSplitSplits(s: string)
    ensures |QuoteSplit(s)| > 1 <==> SomeQuoted(s)
  {
    FirstQuotedFromNone(s, 0);
    match FirstQuotedFrom(s, 0)
    case None =>
      assert |QuoteSplit(s)| == 1;
    case Some((i, j)) =>
      FirstQuotedFromQuoted(s, 0);
      assert |QuoteSplit(s)| == 2 + |QuoteSplit(s[j + 1..])|;
  }

  lemma PiecesCons(a: Piece, b: Piece, rest: seq<Piece>)
    ensures JoinPieces([a, b] + rest) == a.text + b.text + JoinPieces(rest)
    ensures forall k :: 2 <= k < |[a, b] + rest| ==> ([a, b] + rest)[k] == rest[k - 2]
  {
    var ps := [a, b] + rest;
    assert ps[1..] == [b] + rest;
    assert ps[1..][1..] == rest;
  }

  /** One step of a split: the plain text before the match, the match, then
      the split of the rest. */
  lemma SplitStep(s: string, i: nat, e: nat, rest: seq<Piece>)
    requires i <= e <= |s| && JoinPieces(rest) == s[e..]
    ensures JoinPieces([Piece(s[..i], false), Piece(s[i..e], true)] + rest) == s
  {
    PiecesCons(Piece(s[..i], false), Piece(s[i..e], true), rest);
    assert s == s[..i] + s[i..e] + s[e..];
  }

  /** A quoted piece in front of quoted pieces keeps them all quoted. */
  lemma QuotedStep(plain: string, quoted: string, rest: seq<Piece>)
    requires QuotedPiece(quoted) && AllQuoted(rest)
    ensures AllQuoted([Piece(plain, false), Piece(quoted, true)] + rest)
  {
    var ps := [Piece(plain, false), Piece(quoted, true)] + rest;
    assert ps[1..][1..] == rest;
  }

  /** A braced piece in front of braced pieces keeps them all braced. */
  lemma BracedStep(plain: string, braced: string, rest: seq<Piece>)
    requires BracedPiece(braced) && AllBraced(rest)
    ensures AllBraced([Piece(plain, false), Piece(braced, true)] + rest)
  {
    var ps := [Piece(plain, false), Piece(braced, true)] + rest;
    assert ps[1..][1..] == rest;
  }

  /** `text.split(/("[\s\S]*?")|('[\s\S]*?')/)` with the `undefined` entries of
      the unused group left out: plain pieces alternate with quoted ones. */
  function QuoteSplit(s: string): (ps: seq<Piece>)
    ensures |ps| > 0
    decreases |s|
  {
    match FirstQuotedFrom(s, 0)
    case None => [Piece(s, false)]
    case Some((i, j)) =>
      [Piece(s[..i], false), Piece(s[i..j + 1], true)] + QuoteSplit(s[j + 1..])
  }

  /** Joining the pieces of the split gives the text back. */
  lemma {:induction false} QuoteSplitJoins(s: string)
    ensures JoinPieces(QuoteSplit(s)) == s
    decreases |s|
  {
    match FirstQuotedFrom(s, 0)
    case None =>
      SinglePiece(s);
      assert QuoteSplit(s) == [Piece(s, false)];
    case Some((i, j)) =>
      var rest := QuoteSplit(s[j + 1..]);
      assert QuoteSplit(s) == [Piece(s[..i], false), Piece(s[i..j + 1], true)] + rest;
      QuoteSplitJoins(s[j + 1..]);
      SplitStep(s, i, j + 1, rest);
  }

  /** Every captured piece of the split is a quoted span. */
  lemma {:induction false} QuoteSplitQuoted(s: string)
    ensures AllQuoted(QuoteSplit(s))
    decreases |s|
  {
    match FirstQuotedFrom(s, 0)
    case None =>
      SinglePiece(s);
    case Some((i, j)) =>
      FirstQuotedFromQuoted(s, 0);
      QuoteSplitQuoted(s[j + 1..]);
      QuotedStep(s[..i], s[i..j + 1], QuoteSplit(s[j + 1..]));
  }

  /** A text with nothing to split is one plain piece. */
  lemma SinglePiece(s: string)
    ensures JoinPieces([Piece(s, false)]) == s
    ensures AllQuoted([Piece(s, false)]) && AllBraced([Piece(s, false)])
  {
    assert [Piece(s, false)][1..] == [];
  }

  /** The leftmost `{{[\s\S]*?}}`: the first `{{` and the first `}}` after it.
      A later `{{` has no later `}}` either. */
  function FirstBraces(s: string): (r: Option<(nat, nat)>)
    ensures r.Some? ==> r.value.0 + 4 <= r.value.1 <= |s| && OccursAt(s, "{{", r.value.0)
    ensures r.Some? ==> OccursAt(s, "}}", r.value.1 - 2)
    ensures r.Some? ==> BracedPiece(s[r.value.0..r.value.1])
  {
    match Find(s, "{{")
    case None => None
    case Some(i) =>
      match FindFrom(s, "}}", i + 2)
      case None => None
      case Some(j) =>
        OccursWithin(s, "{{", i, j + 2, i);
        OccursWithin(s, "}}", i, j + 2, j);
        Some((i, j + 2))
  }

  /** No `{{…}}` span is found exactly when no `{{` has a `}}` after it. */
  lemma FirstBracesNone(s: string)
    ensures FirstBraces(s).None? <==> forall i, j :: OccursAt(s, "{{", i) && i + 2 <= j ==> !OccursAt(s, "}}", j)
  {
  }

  /** `text.split(/({{[\s\S]*?}})/)`: plain pieces alternate with `{{…}}` ones. */
  function BraceSplit(s: string): (ps: seq<Piece>)
    ensures |ps| > 0
    decreases |s|
  {
    match FirstBraces(s)
    case None => [Piece(s, false)]
    case Some((i, e)) =>
      [Piece(s[..i], false), Piece(s[i..e], true)] + BraceSplit(s[e..])
  }

  /** Joining the pieces of the split gives the text back. */
  lemma {:induction false} BraceSplitJoins(s: string)
    ensures JoinPieces(BraceSplit(s)) == s
    decreases |s|
  {
    match FirstBraces(s)
    case None =>
      SinglePiece(s);
      assert BraceSplit(s) == [Piece(s, false)];
    case Some((i, e)) =>
      var rest := BraceSplit(s[e..]);
      assert BraceSplit(s) == [Piece(s[..i], false), Piece(s[i..e], true)] + rest;
      BraceSplitJoins(s[e..]);
      SplitStep(s, i, e, rest);
  }

  /** Every captured piece of the split is a `{{…}}` span. */
  lemma {:induction false} BraceSplitBraced(s: string)
    ensures AllBraced(BraceSplit(s))
    decreases |s|
  {
    match FirstBraces(s)
    case None =>
      SinglePiece(s);
    case Some((i, e)) =>
      BraceSplitBraced(s[e..]);
      BracedStep(s[..i], s[i..e], BraceSplit(s[e..]));
  }

  /** The split separates something exactly when a `{{…}}` span is found. */
  lemma BraceSplitSplits(s: string)
    ensures |BraceSplit(s)| > 1 <==> FirstBraces(s).Some?
  {
    match FirstBraces(s)
    case None =>
      assert |BraceSplit(s)| == 1;
    case Some((i, e)) =>
      assert |BraceSplit(s)| == 2 + |BraceSplit(s[e..])|;
  }

  // ---------------------------------------------------------------------------
  // Rewriting the quoted tokens of an expression or attribute

  /** The pieces a matcher picks up (empty pieces are skipped unread). */
  function CountMatching(ps: seq<Piece>, matches: string -> bool): nat {
    if ps == [] then 0
    else (if ps[0].text != [] && matches(ps[0].text) then 1 else 0) + CountMatching(ps[1..], matches)
  }

  /** The call a matching quoted token becomes: quotes of the other kind, so
      that it can stay inside its surrounding quotes. */
  function QuotedCall(token: string, tm: string, hash: string): string {
    if |token| > 0 && token[0] == '\'' then CallSingleQuoted(tm, hash) else Call(tm, hash)
  }

  /** The token loop shared by `onattribute` and `parseExpressionInTemplate`:
      the new text and the entries, in order. A matching token without
      surrounding quotes makes `removeQuotes` fail. */
  function QuotedTokens(ps: seq<Piece>, matches: string -> bool, tm: string, md5: string -> Md5Hex):
    (r: Result<(string, seq<Entry>)>)
    ensures r.Ok? ==> |r.value.1| == CountMatching(ps, matches)
    ensures r.Err? ==> r.error == QuotesMissing
    decreases |ps|
  {
    if ps == [] then Ok(([], []))
    else
      var t := ps[0].text;
      if t == [] || !matches(t) then
        var rest :- QuotedTokens(ps[1..], matches, tm, md5);
        Ok((t + rest.0, rest.1))
      else
        var body :- RemoveQuotes(t);
        var e := EntryFor(TrimText(body), md5);
        var rest :- QuotedTokens(ps[1..], matches, tm, md5);
        Ok((QuotedCall(t, tm, e.hash) + rest.0, [e] + rest.1))
  }

  /** No non-empty piece of the list is picked up by the matcher. */
  predicate NoPieceMatches(ps: seq<Piece>, matches: string -> bool) {
    forall k :: 0 <= k < |ps| ==> ps[k].text == [] || !matches(ps[k].text)
  }

  /** Without a matching token the pieces are joined back unchanged. */
  lemma {:induction false} QuotedTokensUnmatched(ps: seq<Piece>, matches: string -> bool, tm: string, md5: string -> Md5Hex)
    requires NoPieceMatches(ps, matches)
    ensures QuotedTokens(ps, matches, tm, md5) == Ok((JoinPieces(ps), []))
    decreases |ps|
  {
    if ps != [] {
      assert forall k :: 0 <= k < |ps[1..]| ==> ps[1..][k] == ps[k + 1];
      QuotedTokensUnmatched(ps[1..], matches, tm, md5);
      assert ps[0].text == [] || !matches(ps[0].text);
    }
  }

  /** The loop fails exactly when some matching token lacks its quotes. */
  lemma {:induction false} QuotedTokensOk(ps: seq<Piece>, matches: string -> bool, tm: string, md5: string -> Md5Hex)
    ensures QuotedTokens(ps, matches, tm, md5).Ok? <==>
      forall k :: 0 <= k < |ps| && ps[k].text != [] && matches(ps[k].text) ==> RemoveQuotes(ps[k].text).Ok?
    decreases |ps|
  {
    if ps != [] {
      var t := ps[0].text;
      assert forall k :: 1 <= k < |ps| ==> ps[k] == ps[1..][k - 1];
      QuotedTokensOk(ps[1..], matches, tm, md5);
      if t == [] || !matches(t) || RemoveQuotes(t).Ok? {
        assert QuotedTokens(ps, matches, tm, md5).Ok? == QuotedTokens(ps[1..], matches, tm, md5).Ok?;
      } else {
        assert QuotedTokens(ps, matches, tm, md5).Err?;
      }
    }
  }

  /** A piece the token loop rewrites: non-empty, matching, and quoted. */
  predicate Rewritable(t: string, matches: string -> bool) {
    t != [] && matches(t) && RemoveQuotes(t).Ok?
  }

  /** What the token loop makes of one piece: a rewritable token becomes the
      call on the key of its trimmed, unquoted text; any other piece is copied. */
  function RenderQuoted(t: string, matches: string -> bool, tm: string, md5: string -> Md5Hex): string {
    if Rewritable(t, matches) then QuotedCall(t, tm, GetTextKey(TrimText(RemoveQuotes(t).value), md5)) else t
  }

  /** The entry one piece records: its trimmed, unquoted text when it is rewritten. */
  function QuotedEntry(t: string, matches: string -> bool, md5: string -> Md5Hex): seq<Entry> {
    if Rewritable(t, matches) then [EntryFor(TrimText(RemoveQuotes(t).value), md5)] else []
  }

  /** The pieces, each rendered, joined back together. */
  function QuotedText(ps: seq<Piece>, matches: string -> bool, tm: string, md5: string -> Md5Hex): string {
    if ps == [] then [] else RenderQuoted(ps[0].text, matches, tm, md5) + QuotedText(ps[1..], matches, tm, md5)
  }

  /** The entries of the rewritten pieces, in piece order. */
  function QuotedEntries(ps: seq<Piece>, matches: string -> bool, md5: string -> Md5Hex): seq<Entry> {
    if ps == [] then [] else QuotedEntry(ps[0].text, matches, md5) + QuotedEntries(ps[1..], matches, md5)
  }

  /** The token loop, when it succeeds, is the piece-by-piece rendering: the
      rendered pieces joined, and the entries of the rewritten ones in order. */
  lemma {:induction false} QuotedTokensSpec(ps: seq<Piece>, matches: string -> bool, tm: string, md5: string -> Md5Hex)
    ensures var r := QuotedTokens(ps, matches, tm, md5);
      r.Ok? ==> r.value == (QuotedText(ps, matches, tm, md5), QuotedEntries(ps, matches, md5))
    decreases |ps|
  {
    var r := QuotedTokens(ps, matches, tm, md5);
    if ps != [] && r.Ok? {
      var t := ps[0].text;
      var rest := QuotedTokens(ps[1..], matches, tm, md5);
      assert rest.Ok?;
      QuotedTokensSpec(ps[1..], matches, tm, md5);
      assert QuotedText(ps, matches, tm, md5) == RenderQuoted(t, matches, tm, md5) + QuotedText(ps[1..], matches, tm, md5);
      assert QuotedEntries(ps, matches, md5) == QuotedEntry(t, matches, md5) + QuotedEntries(ps[1..], matches, md5);
      if t == [] || !matches(t) {
        assert r.value == (t + rest.value.0, rest.value.1);
        assert RenderQuoted(t, matches, tm, md5) == t;
        assert QuotedEntry(t, matches, md5) == [];
      } else {
        assert RemoveQuotes(t).Ok?;
        var e := EntryFor(TrimText(RemoveQuotes(t).value), md5);
        assert r.value == (QuotedCall(t, tm, e.hash) + rest.value.0, [e] + rest.value.1);
        assert RenderQuoted(t, matches, tm, md5) == QuotedCall(t, tm, e.hash);
        assert QuotedEntry(t, matches, md5) == [e];
      }
      assert r.value.0 == QuotedText(ps, matches, tm, md5);
      assert r.value.1 == QuotedEntries(ps, matches, md5);
    }
  }

  /** No replacer of the list comes from the script. */
  predicate NoScript(rs: seq<Replacer>) {
    forall k :: 0 <= k < |rs| ==> !rs[k].isScript
  }

  lemma NoScriptAppend(a: seq<Replacer>, b: seq<Replacer>)
    requires NoScript(a) && NoScript(b)
    ensures NoScript(a + b)
  {
    forall k | 0 <= k < |a + b| ensures !(a + b)[k].isScript {
      if k >= |a| {
        assert (a + b)[k] == b[k - |a|];
      }
    }
  }

  /** The shape `onattribute` and `parseExpressionInTemplate` give a split
      text: the entries in order, then one rewrite of the whole text. */
  predicate EntriesThenRewrite(rs: seq<Replacer>, text: string) {
    && |rs| > 0 && NoScript(rs)
    && rs[|rs| - 1].rewrite.Some? && rs[|rs| - 1].entry.None?
    && rs[|rs| - 1].rewrite.value.pattern == Literal(text)
    && forall k :: 0 <= k < |rs| - 1 ==> rs[k].rewrite.None? && rs[k].entry.Some?
  }

  function EntriesThen(es: seq<Entry>, text: string, newText: string): (rs: seq<Replacer>)
    ensures EntriesThenRewrite(rs, text) && |rs| == |es| + 1
    ensures forall k :: 0 <= k < |es| ==> rs[k].entry == Some(es[k])
    ensures rs[|es|].rewrite.value.newText == newText
  {
    seq(|es| + 1, k requires 0 <= k <= |es| =>
      if k < |es| then Replacer(None, Some(es[k]), false)
      else Replacer(Some(Rewrite(Literal(text), newText)), None, false))
  }

  // ---------------------------------------------------------------------------
  // onattribute

  /** `onattribute(name, text)`. With quoted sub-spans, the matching ones are
      rewritten in place and the whole value replaced once; without, the whole
      attribute is turned into a binding of the lookup call. */
  function AttributeReplacers(name: string, text: string, matches: string -> bool, tm: string,
                              md5: string -> Md5Hex): (r: Result<seq<Replacer>>)
    ensures !matches(text) ==> r == Ok([])
    ensures matches(text) && |QuoteSplit(text)| == 1 ==>
      var e := EntryFor(TrimText(text), md5);
      r == Ok([Replacer(Some(Rewrite(AttributeBinding(name, text), NameAsVariable(name) + "='" + Call(tm, e.hash) + "'")),
                        Some(e), false)])
    ensures matches(text) && |QuoteSplit(text)| > 1 && r.Ok? ==> EntriesThenRewrite(r.value, text)
    ensures matches(text) && |QuoteSplit(text)| > 1 && r.Ok? ==> |r.value| == CountMatching(QuoteSplit(text), matches) + 1
    ensures r.Ok? ==> NoScript(r.value)
  {
    if !matches(text) then Ok([])
    else
      var ps := QuoteSplit(text);
      if |ps| > 1 then
        var (newText, entries) :- QuotedTokens(ps, matches, tm, md5);
        Ok(EntriesThen(entries, text, newText))
      else
        var e := EntryFor(TrimText(text), md5);
        Ok([Replacer(Some(Rewrite(AttributeBinding(name, text), NameAsVariable(name) + "='" + Call(tm, e.hash) + "'")),
                     Some(e), false)])
  }

  /** `onattribute` on a value with quoted sub-spans: it fails exactly when a
      matching token lacks its quotes; otherwise the whole value is replaced
      once by its pieces rendered one by one, after the entries in order. */
  lemma AttributeQuotedRewrite(name: string, text: string, matches: string -> bool, tm: string, md5: string -> Md5Hex)
    ensures var r := AttributeReplacers(name, text, matches, tm, md5); var ps := QuoteSplit(text);
      matches(text) && |ps| > 1 ==>
        && (r.Ok? <==> forall k :: 0 <= k < |ps| && ps[k].text != [] && matches(ps[k].text) ==> RemoveQuotes(ps[k].text).Ok?)
        && (r.Ok? ==> r.value == EntriesThen(QuotedEntries(ps, matches, md5), text, QuotedText(ps, matches, tm, md5)))
  {
    QuotedTokensOk(QuoteSplit(text), matches, tm, md5);
    QuotedTokensSpec(QuoteSplit(text), matches, tm, md5);
  }

  // ---------------------------------------------------------------------------
  // parseExpressionInTemplate

  /** One `{{…}}`-split piece: matching plain text becomes an interpolated call
      for the whole piece; a matching piece that starts with `{` has its
      quoted tokens rewritten; anything else is copied. */
  function ExpressionPiece(t: string, matches: string -> bool, tm: string, md5: string -> Md5Hex):
    (r: Result<(string, seq<Entry>)>)
    ensures t == [] || !matches(t) ==> r == Ok((t, []))
    ensures t != [] && matches(t) && t[0] != '{' ==>
      r == Ok(("{{" + Call(tm, GetTextKey(TrimText(t), md5)) + "}}", [EntryFor(TrimText(t), md5)]))
    ensures r.Err? ==> r.error == QuotesMissing
  {
    if t == [] || !matches(t) then Ok((t, []))
    else if t[0] != '{' then
      var e := EntryFor(TrimText(t), md5);
      Ok(("{{" + Call(tm, e.hash) + "}}", [e]))
    else QuotedTokens(QuoteSplit(t), matches, tm, md5)
  }

  function ExpressionPieces(ps: seq<Piece>, matches: string -> bool, tm: string, md5: string -> Md5Hex):
    (r: Result<(string, seq<Entry>)>)
    ensures r.Err? ==> r.error == QuotesMissing
    decreases |ps|
  {
    if ps == [] then Ok(([], []))
    else
      var (a, ea) :- ExpressionPiece(ps[0].text, matches, tm, md5);
      var (b, eb) :- ExpressionPieces(ps[1..], matches, tm, md5);
      Ok((a + b, ea + eb))
  }

  /** Without a matching piece the pieces are joined back unchanged. */
  lemma {:induction false} ExpressionPiecesUnmatched(ps: seq<Piece>, matches: string -> bool, tm: string, md5: string -> Md5Hex)
    requires NoPieceMatches(ps, matches)
    ensures ExpressionPieces(ps, matches, tm, md5) == Ok((JoinPieces(ps), []))
    decreases |ps|
  {
    if ps != [] {
      assert forall k :: 0 <= k < |ps[1..]| ==> ps[1..][k] == ps[k + 1];
      ExpressionPiecesUnmatched(ps[1..], matches, tm, md5);
      assert ps[0].text == [] || !matches(ps[0].text);
      assert ExpressionPiece(ps[0].text, matches, tm, md5) == Ok((ps[0].text, []));
      assert JoinPieces(ps) == ps[0].text + JoinPieces(ps[1..]);
      var none: seq<Entry> := [];
      assert none + none == none;
    }
  }

  /** What one piece becomes: matching plain text an interpolated call on the
      key of its trimmed text, a matching braced piece its quoted tokens
      rendered, anything else itself. */
  function RenderExpression(t: string, matches: string -> bool, tm: string, md5: string -> Md5Hex): string {
    if t == [] || !matches(t) then t
    else if t[0] != '{' then "{{" + Call(tm, GetTextKey(TrimText(t), md5)) + "}}"
    else QuotedText(QuoteSplit(t), matches, tm, md5)
  }

  /** The entries one piece records. */
  function ExpressionEntry(t: string, matches: string -> bool, md5: string -> Md5Hex): seq<Entry> {
    if t == [] || !matches(t) then []
    else if t[0] != '{' then [EntryFor(TrimText(t), md5)]
    else QuotedEntries(QuoteSplit(t), matches, md5)
  }

  /** How many entries one piece records: one for matching plain text, one
      per matching quoted token of a matching braced piece. */
  function PieceCount(t: string, matches: string -> bool): nat {
    if t == [] || !matches(t) then 0
    else if t[0] != '{' then 1
    else CountMatching(QuoteSplit(t), matches)
  }

  function ExpressionText(ps: seq<Piece>, matches: string -> bool, tm: string, md5: string -> Md5Hex): string {
    if ps == [] then [] else RenderExpression(ps[0].text, matches, tm, md5) + ExpressionText(ps[1..], matches, tm, md5)
  }

  function ExpressionEntries(ps: seq<Piece>, matches: string -> bool, md5: string -> Md5Hex): seq<Entry> {
    if ps == [] then [] else ExpressionEntry(ps[0].text, matches, md5) + ExpressionEntries(ps[1..], matches, md5)
  }

  function ExpressionCount(ps: seq<Piece>, matches: string -> bool): nat {
    if ps == [] then 0 else PieceCount(ps[0].text, matches) + ExpressionCount(ps[1..], matches)
  }

  /** The piece loop, when it succeeds, is the piece-by-piece rendering, with
      as many entries as the pieces record. */
  lemma {:induction false} ExpressionPiecesSpec(ps: seq<Piece>, matches: string -> bool, tm: string, md5: string -> Md5Hex)
    ensures var r := ExpressionPieces(ps, matches, tm, md5);
      r.Ok? ==> && r.value == (ExpressionText(ps, matches, tm, md5), ExpressionEntries(ps, matches, md5))
                && |r.value.1| == ExpressionCount(ps, matches)
    decreases |ps|
  {
    var r := ExpressionPieces(ps, matches, tm, md5);
    if ps != [] && r.Ok? {
      var t := ps[0].text;
      var head := ExpressionPiece(t, matches, tm, md5);
      var rest := ExpressionPieces(ps[1..], matches, tm, md5);
      assert head.Ok? && rest.Ok?;
      ExpressionPiecesSpec(ps[1..], matches, tm, md5);
      if t != [] && matches(t) && t[0] == '{' {
        QuotedTokensSpec(QuoteSplit(t), matches, tm, md5);
      }
      assert head.value == (RenderExpression(t, matches, tm, md5), ExpressionEntry(t, matches, md5));
      assert |head.value.1| == PieceCount(t, matches);
      assert r.value == (head.value.0 + rest.value.0, head.value.1 + rest.value.1);
      assert r.value.0 == ExpressionText(ps, matches, tm, md5);
      assert r.value.1 == ExpressionEntries(ps, matches, md5);
    }
  }

  /** `{{([\s\S]*)}}` finds an expression: some `{{` has a `}}` after it. */
  predicate HasExpression(text: string) {
    FirstBraces(text).Some?
  }

  /** The replacer of a text without an expression: the whole text node,
      between its tags, becomes an interpolated call. */
  function TextNodeReplacer(text: string, tm: string, md5: string -> Md5Hex): (r: Replacer)
    ensures r.rewrite.Some? && r.rewrite.value.pattern == TextNode(text) && !r.isScript
    ensures r.entry == Some(EntryFor(TrimText(text), md5))
    ensures r.rewrite.value.newText == ">{{" + Call(tm, r.entry.value.hash) + "}}<"
  {
    var e := EntryFor(TrimText(text), md5);
    Replacer(Some(Rewrite(TextNode(text), ">{{" + Call(tm, e.hash) + "}}<")), Some(e), false)
  }

  /** A text with an expression: its pieces are rewritten one by one and the
      whole text replaced once. */
  function SplitExpressionReplacers(text: string, matches: string -> bool, tm: string, md5: string -> Md5Hex):
    (r: Result<seq<Replacer>>)
    ensures r.Ok? ==> EntriesThenRewrite(r.value, text)
    ensures r.Err? ==> r.error == QuotesMissing
  {
    var (newText, entries) :- ExpressionPieces(BraceSplit(text), matches, tm, md5);
    Ok(EntriesThen(entries, text, newText))
  }

  /** `parseExpressionInTemplate(text, matchRegex, transMethod)`. */
  function ExpressionReplacers(text: string, matches: string -> bool, tm: string, md5: string -> Md5Hex):
    (r: Result<seq<Replacer>>)
    ensures !matches(text) ==> r == Ok([])
    ensures matches(text) && !HasExpression(text) ==> r == Ok([TextNodeReplacer(text, tm, md5)])
    ensures matches(text) && HasExpression(text) && r.Ok? ==> EntriesThenRewrite(r.value, text)
    ensures r.Ok? ==> NoScript(r.value)
    ensures r.Err? ==> r.error == QuotesMissing
  {
    if !matches(text) then Ok([])
    else if HasExpression(text) then SplitExpressionReplacers(text, matches, tm, md5)
    else
      var node := TextNodeReplacer(text, tm, md5);
      assert NoScript([node]) by { assert [node][0] == node; }
      Ok([node])
  }

  /** The new text of an expression copies every piece nobody matches: when
      only the text as a whole matches, the rewrite gives the text back. */
  lemma ExpressionCopiesUnmatched(text: string, matches: string -> bool, tm: string, md5: string -> Md5Hex)
    requires matches(text) && HasExpression(text)
    requires NoPieceMatches(BraceSplit(text), matches)
    ensures ExpressionReplacers(text, matches, tm, md5) == Ok([Replacer(Some(Rewrite(Literal(text), text)), None, false)])
  {
    var ps := BraceSplit(text);
    BraceSplitJoins(text);
    ExpressionPiecesUnmatched(ps, matches, tm, md5);
    assert EntriesThen([], text, text) == [Replacer(Some(Rewrite(Literal(text), text)), None, false)];
  }

  /** A text with an expression: the whole text is replaced once by its
      pieces rendered one by one, after the entries of the pieces in order. */
  lemma ExpressionSplitRewrite(text: string, matches: string -> bool, tm: string, md5: string -> Md5Hex)
    ensures var r := ExpressionReplacers(text, matches, tm, md5); var ps := BraceSplit(text);
      matches(text) && HasExpression(text) && r.Ok? ==>
        && r.value == EntriesThen(ExpressionEntries(ps, matches, md5), text, ExpressionText(ps, matches, tm, md5))
        && |r.value| == ExpressionCount(ps, matches) + 1
  {
    ExpressionPiecesSpec(BraceSplit(text), matches, tm, md5);
  }

  // ---------------------------------------------------------------------------
  // generateTemplateReplacers

  function EventReplacers(ev: MarkupEvent, matches: string -> bool, tm: string, md5: string -> Md5Hex):
    (r: Result<seq<Replacer>>)
    ensures r.Ok? ==> NoScript(r.value)
  {
    match ev
    case Attribute(name, value) => AttributeReplacers(name, value, matches, tm, md5)
    case TextEvent(text) => ExpressionReplacers(text, matches, tm, md5)
  }

  predicate EventMatches(ev: MarkupEvent, matches: string -> bool) {
    match ev
    case Attribute(_, value) => matches(value)
    case TextEvent(text) => matches(text)
  }

  /** The replacers of all events, in document order. */
  function EventsReplacers(evs: seq<MarkupEvent>, matches: string -> bool, tm: string, md5: string -> Md5Hex):
    (r: Result<seq<Replacer>>)
    ensures r.Ok? ==> NoScript(r.value)
    ensures (forall i :: 0 <= i < |evs| ==> !EventMatches(evs[i], matches)) ==> r == Ok([])
    ensures r.Err? ==> r.error == QuotesMissing
    decreases |evs|
  {
    if evs == [] then Ok([])
    else
      assert forall k :: 1 <= k < |evs| ==> evs[k] == evs[1..][k - 1];
      var a :- EventReplacers(evs[0], matches, tm, md5);
      var b :- EventsReplacers(evs[1..], matches, tm, md5);
      NoScriptAppend(a, b);
      Ok(a + b)
  }

  /** `generateTemplateReplacers(template, matchRegex, transMethod)`. */
  function TemplateReplacers(template: string, matches: string -> bool, tm: string, md5: string -> Md5Hex,
                             parseMarkup: string -> seq<MarkupEvent>): (r: Result<seq<Replacer>>)
    ensures r.Ok? ==> NoScript(r.value)
    ensures (forall i :: 0 <= i < |parseMarkup(template)| ==> !EventMatches(parseMarkup(template)[i], matches)) ==>
      r == Ok([])
  {
    EventsReplacers(parseMarkup(template), matches, tm, md5)
  }
}
