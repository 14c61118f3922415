/** `String.prototype.replace` called with a replacement STRING, as the
    rewrite loop of `processI18n` does: `$` patterns in the replacement are
    expanded (GetSubstitution, section 22.1.3.19.1 of ECMA-262, 2023 edition).
    The extracted text is pasted into `newText`, so a `$&` or `$'` in it is
    expanded instead of copied. */
module Substitution {
  import opened Wrappers
  import opened Strings
  import opened Patterns
  import opened Text
  import opened Replacers
  import Pipeline

  predicate IsDigit(c: char) {
    '0' <= c <= '9'
  }

  function DigitValue(c: char): nat
    requires IsDigit(c)
  {
    (c as int - '0' as int) as nat
  }

  /** The characters after a `$` that start a substitution pattern. */
  const PatternChars: string := "$&`'<0123456789"

  /** The first replacement element of a non-empty `template`: its expansion
      and how many characters of the template it consumes. */
  function Element(matched: string, str: string, position: nat, captures: seq<string>,
                   template: string): (r: (string, nat))
    requires |template| > 0
    ensures 1 <= r.1 <= |template|
  {
    if template[0] != '$' || |template| == 1 then ([template[0]], 1)
    else
      var c := template[1];
      if c == '$' then ("$", 2)
      else if c == '&' then (matched, 2)
      else if c == '`' then (str[..if position <= |str| then position else |str|], 2)
      else if c == '\'' then
        var tail := position + |matched|;
        (str[if tail <= |str| then tail else |str|..], 2)
      else if IsDigit(c) then
        var two := |template| >= 3 && IsDigit(template[2]);
        var index2 := if two then 10 * DigitValue(c) + DigitValue(template[2]) else DigitValue(c);
        // a two-digit reference beyond the captures is read as one digit and a literal digit
        var digitCount := if two && index2 <= |captures| then 2 else 1;
        var index := if digitCount == 2 then index2 else DigitValue(c);
        var ref := template[..1 + digitCount];
        (if 1 <= index <= |captures| then captures[index - 1] else ref, 1 + digitCount)
      else if c == '<' then ("$<", 2)
      else ("$", 1)
  }

  /** The expansion of `template` for a match of `matched` at `position` in
      `str` with the given capture groups, and no named groups. */
  function GetSubstitution(matched: string, str: string, position: nat, captures: seq<string>,
                           template: string): string
    decreases |template|
  {
    if template == [] then []
    else
      var e := Element(matched, str, position, captures, template);
      e.0 + GetSubstitution(matched, str, position, captures, template[e.1..])
  }

  /** No `$` in the template starts a substitution pattern. */
  predicate NoSubstitutionPattern(template: string) {
    forall i :: 0 <= i < |template| - 1 && template[i] == '$' ==> template[i + 1] !in PatternChars
  }

  lemma PlainElement(matched: string, str: string, position: nat, captures: seq<string>, template: string)
    requires |template| > 0
    requires template[0] != '$' || |template| == 1 || template[1] !in PatternChars
    ensures Element(matched, str, position, captures, template) == ([template[0]], 1)
  {
  }

  /** A template without substitution patterns expands to itself. */
  lemma {:induction false} PlainTemplateIsLiteral(matched: string, str: string, position: nat,
                                                 captures: seq<string>, template: string)
    requires NoSubstitutionPattern(template)
    ensures GetSubstitution(matched, str, position, captures, template) == template
    decreases |template|
  {
    if template != [] {
      assert NoSubstitutionPattern(template[1..]) by {
        forall i | 0 <= i < |template[1..]| - 1 && template[1..][i] == '$'
          ensures template[1..][i + 1] !in PatternChars
        {
          assert template[i + 1] == '$';
        }
      }
      PlainTemplateIsLiteral(matched, str, position, captures, template[1..]);
      PlainElement(matched, str, position, captures, template);
      assert template == [template[0]] + template[1..];
    }
  }

  /** The expansion `processI18n` applies to each match of a replacer. */
  function Expand(s: string, newText: string): Match -> string {
    (m: Match) =>
      GetSubstitution(s[if m.start <= m.end <= |s| then m.start else 0..if m.start <= m.end <= |s| then m.end else 0],
                      s, m.start, m.captures, newText)
  }

  /** `parts[i].replace(replacer.oldText, replacer.newText)` as written. */
  function ApplyRewriteAsWritten(s: string, rw: Rewrite): string {
    ReplaceMatches(s, rw.pattern, Expand(s, rw.newText))
  }

  lemma GlobalFromCongruence(s: string, t: string, from: nat, f: Match -> string, g: Match -> string)
    requires |t| > 0 && from <= |s|
    requires forall m :: f(m) == g(m)
    ensures GlobalFrom(s, t, from, f) == GlobalFrom(s, t, from, g)
    decreases |s| - from
  {
    match FindFrom(s, t, from)
    case None =>
    case Some(i) => GlobalFromCongruence(s, t, i + |t|, f, g);
  }

  lemma EmptyGlobalFromCongruence(s: string, from: nat, f: Match -> string, g: Match -> string)
    requires from <= |s|
    requires forall m :: f(m) == g(m)
    ensures EmptyGlobalFrom(s, from, f) == EmptyGlobalFrom(s, from, g)
    decreases |s| - from
  {
    if from < |s| {
      EmptyGlobalFromCongruence(s, from + 1, f, g);
    }
  }

  /** Where the inserted text holds no `$` pattern, the rewrite as written and
      the literal rewrite agree. */
  lemma AsWrittenAgreesWithoutPatterns(s: string, rw: Rewrite)
    requires NoSubstitutionPattern(rw.newText)
    ensures ApplyRewriteAsWritten(s, rw) == ApplyRewrite(s, rw)
  {
    var f := Expand(s, rw.newText);
    var g := (m: Match) => rw.newText;
    forall m: Match ensures f(m) == g(m) {
      var a := if m.start <= m.end <= |s| then m.start else 0;
      var b := if m.start <= m.end <= |s| then m.end else 0;
      PlainTemplateIsLiteral(s[a..b], s, m.start, m.captures, rw.newText);
    }
    if rw.pattern.GlobalLiteral? {
      if |rw.pattern.text| > 0 {
        GlobalFromCongruence(s, rw.pattern.text, 0, f, g);
      } else {
        EmptyGlobalFromCongruence(s, 0, f, g);
      }
    }
  }

  /** Text the expansion copies whatever follows it: no `$` pattern inside,
      and no `$` at its end that could start one with the next character. */
  predicate PlainText(p: string) {
    NoSubstitutionPattern(p) && (p == [] || p[|p| - 1] != '$')
  }

  lemma {:induction false} PlainPrefix(matched: string, str: string, position: nat,
                                      captures: seq<string>, p: string, t: string)
    requires PlainText(p)
    ensures GetSubstitution(matched, str, position, captures, p + t)
         == p + GetSubstitution(matched, str, position, captures, t)
    decreases |p|
  {
    if p == [] {
      assert p + t == t;
    } else {
      assert (p + t)[1..] == p[1..] + t;
      assert PlainText(p[1..]) by {
        forall i | 0 <= i < |p[1..]| - 1 && p[1..][i] == '$'
          ensures p[1..][i + 1] !in PatternChars
        {
          assert p[i + 1] == '$';
        }
      }
      PlainPrefix(matched, str, position, captures, p[1..], t);
      if p[0] == '$' {
        assert (p + t)[1] == p[1];
      }
      PlainElement(matched, str, position, captures, p + t);
      assert p == [p[0]] + p[1..];
    }
  }

  lemma DollarAmpersand(matched: string, str: string, position: nat, captures: seq<string>, t: string)
    ensures GetSubstitution(matched, str, position, captures, "$&" + t)
         == matched + GetSubstitution(matched, str, position, captures, t)
  {
    assert ("$&" + t)[2..] == t;
  }

  lemma SingleOccurrence(s: string, f: Match -> string)
    requires |s| > 0
    ensures GlobalFrom(s, s, 0, f) == f(Match(0, |s|, []))
  {
    assert s[0..|s|] == s;
    assert FindFrom(s, s, 0) == Some(0);
    assert FindFrom(s, s, |s|) == None;
    assert s[|s|..] == [];
    assert s[0..0] == [];
  }

  /** Plain pieces separated by `$&` expand to the same pieces separated by
      the matched text. */
  lemma {:induction false} JoinExpansion(matched: string, str: string, position: nat,
                                        captures: seq<string>, ps: seq<string>)
    requires |ps| > 0 && forall k :: 0 <= k < |ps| ==> PlainText(ps[k])
    ensures GetSubstitution(matched, str, position, captures, Join(ps, "$&")) == Join(ps, matched)
    decreases |ps|
  {
    if |ps| == 1 {
      PlainPrefix(matched, str, position, captures, ps[0], []);
      assert ps[0] + [] == ps[0];
    } else {
      var rest := Join(ps[1..], "$&");
      assert Join(ps, "$&") == ps[0] + ("$&" + rest);
      PlainPrefix(matched, str, position, captures, ps[0], "$&" + rest);
      DollarAmpersand(matched, str, position, captures, rest);
      assert forall k :: 0 <= k < |ps[1..]| ==> ps[1..][k] == ps[k + 1];
      JoinExpansion(matched, str, position, captures, ps[1..]);
    }
  }

  /** Whenever the inserted text carries `$&`, the rewrite as written pastes
      the matched text in its place: a global literal replacer for `s` whose
      `newText` is plain pieces joined by `$&` yields the pieces joined by
      `s`, not `newText`. */
  lemma {:induction false} MatchedTextPasted(s: string, ps: seq<string>)
    requires |s| > 0 && |ps| > 0 && forall k :: 0 <= k < |ps| ==> PlainText(ps[k])
    ensures ApplyRewrite(s, Rewrite(GlobalLiteral(s), Join(ps, "$&"))) == Join(ps, "$&")
    ensures ApplyRewriteAsWritten(s, Rewrite(GlobalLiteral(s), Join(ps, "$&"))) == Join(ps, s)
  {
    var nt := Join(ps, "$&");
    SingleOccurrence(s, Expand(s, nt));
    SingleOccurrence(s, (m: Match) => nt);
    assert s[0..|s|] == s;
    JoinExpansion(s, s, 0, [], ps);
  }

  /** The string literal `"中$&"` in the `<script setup>` of `Header.vue` (a
      composable script, so no `this.` before the accessor): its
      replacer is `/"中\$&"/g -> $VHeader("中$&","中$&")`, and both `$&` of
      the replacement expand to the matched literal, so the output is
      `$VHeader("中"中$&"","中"中$&"")`, which is not even valid JavaScript. */
  lemma DollarAmpersandCounterexample(md5: string -> Md5Hex)
    ensures var value := "\"中$&\"";
      var r := StringReplacer(value, Pipeline.AccessorName("Header"), md5);
      && r.Ok?
      && r.value.rewrite.value.newText == "$VHeader(\"中$&\",\"中$&\")"
      && ApplyRewrite(value, r.value.rewrite.value) == "$VHeader(\"中$&\",\"中$&\")"
      && ApplyRewriteAsWritten(value, r.value.rewrite.value) == "$VHeader(\"中\"中$&\"\",\"中\"中$&\"\")"
  {
    var value := "\"中$&\"";
    HeaderAccessor();
    HeaderReplacer(md5);
    var ps := HeaderPieces();
    MatchedTextPasted(value, ps);
  }

  lemma HeaderAccessor()
    ensures Pipeline.AccessorName("Header") == "$VHeader"
  {
    assert Pipeline.Letters("Header") == "Header";
  }

  /** The replacer of the literal: no blank to trim, a key of three units. */
  lemma HeaderReplacer(md5: string -> Md5Hex)
    ensures var r := StringReplacer("\"中$&\"", "$VHeader", md5);
      r.Ok? && r.value.rewrite.value == Rewrite(GlobalLiteral("\"中$&\""), "$VHeader(\"中$&\",\"中$&\")")
  {
    var body := "中$&";
    LiteralBody();
    ShortEntry(md5);
    CallText();
    var r := StringReplacer("\"中$&\"", "$VHeader", md5);
    assert r.Ok?;
    assert r.value.rewrite.value.newText == CallWithOrigin("$VHeader", body, body);
  }

  lemma CallText()
    ensures CallWithOrigin("$VHeader", "中$&", "中$&") == "$VHeader(\"中$&\",\"中$&\")"
  {
  }

  lemma LiteralBody()
    ensures RemoveQuotes("\"中$&\"") == Ok("中$&")
  {
    var body := "中$&";
    assert "\"中$&\"" == [] + ['"'] + body + ['"'] + [];
    assert NoLineTerminator(body) by {
      assert !IsLineTerminator(body[0]) && !IsLineTerminator(body[1]) && !IsLineTerminator(body[2]);
    }
    RemoveQuotesOfQuoted([], '"', body, '"', []);
  }

  lemma ShortEntry(md5: string -> Md5Hex)
    ensures EntryFor(TrimText("中$&"), md5) == Entry("中$&", "中$&")
  {
    TrimTextOfTrimmed("中$&");
    ShortKey(md5);
  }

  lemma ShortKey(md5: string -> Md5Hex)
    ensures GetTextKey("中$&", md5) == "中$&"
  {
    NothingToStrip();
    assert Utf16Length("中$&") == 3;
  }

  lemma NothingToStrip()
    ensures StripWhitespace("中$&") == "中$&"
  {
    var body := "中$&";
    assert !IsSpace(body[0]) && !IsSpace(body[1]) && !IsSpace(body[2]);
    assert body[1..][1..] == "&" && body[1..] == "$&";
  }

  /** The replacement cut at its `$&`s into plain pieces. */
  lemma HeaderPieces() returns (ps: seq<string>)
    ensures |ps| > 0 && forall k :: 0 <= k < |ps| ==> PlainText(ps[k])
    ensures Join(ps, "$&") == "$VHeader(\"中$&\",\"中$&\")"
    ensures Join(ps, "\"中$&\"") == "$VHeader(\"中\"中$&\"\",\"中\"中$&\"\")"
  {
    ps := ["$VHeader(\"中", "\",\"中", "\")"];
    assert PlainText(ps[0]) && PlainText(ps[1]) && PlainText(ps[2]);
    assert Join(ps[2..], "$&") == ps[2];
    assert Join(ps[2..], "\"中$&\"") == ps[2];
  }
}
