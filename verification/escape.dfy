/** `regSafeText` (utils.js), which escapes a text so that it can be put
    inside a `RegExp`, and what the escaped pattern matches when it is read
    back as a pattern. */
module Escaping {
  import opened Wrappers

  // ---------------------------------------------------------------------------
  // regSafeText as written

  /** The characters `regSafeText` escapes, in the order of its `replace` calls. */
  const RegexSpecials: string := "*.+^[]?$()|"

  /** Membership in `RegexSpecials`, spelled out character by character. */
  predicate IsRegexSpecial(c: char) {
    c == '*' || c == '.' || c == '+' || c == '^' || c == '[' || c == ']'
    || c == '?' || c == '$' || c == '(' || c == ')' || c == '|'
  }

  /** `s.replace(/c/g, rep)` for a single character `c`. */
  function ReplaceChar(s: string, c: char, rep: string): string {
    if s == [] then [] else (if s[0] == c then rep else [s[0]]) + ReplaceChar(s[1..], c, rep)
  }

  /** Each special character in turn is replaced everywhere by a backslash and itself. */
  function EscapeSteps(s: string, cs: string): string
    decreases |cs|
  {
    if cs == [] then s else EscapeSteps(ReplaceChar(s, cs[0], ['\\', cs[0]]), cs[1..])
  }

  /** `regSafeText`, as the chain of eleven global replacements it is written as. */
  function RegSafeText(s: string): string {
    EscapeSteps(s, RegexSpecials)
  }

  /** Reference definition: every special character gets one backslash in front
      of it, every other character is copied. */
  function EscapeChar(c: char): string {
    if IsRegexSpecial(c) then ['\\', c] else [c]
  }

  function Escape(s: string): string {
    if s == [] then [] else EscapeChar(s[0]) + Escape(s[1..])
  }

  function CountSpecials(s: string): nat {
    if s == [] then 0 else (if IsRegexSpecial(s[0]) then 1 else 0) + CountSpecials(s[1..])
  }

  lemma ReplaceCharAppend(a: string, b: string, c: char, rep: string)
    ensures ReplaceChar(a + b, c, rep) == ReplaceChar(a, c, rep) + ReplaceChar(b, c, rep)
  {
    if a != [] {
      assert (a + b)[0] == a[0];
      assert (a + b)[1..] == a[1..] + b;
      ReplaceCharAppend(a[1..], b, c, rep);
      var h := if a[0] == c then rep else [a[0]];
      calc {
        ReplaceChar(a + b, c, rep);
        h + ReplaceChar(a[1..] + b, c, rep);
        h + (ReplaceChar(a[1..], c, rep) + ReplaceChar(b, c, rep));
        (h + ReplaceChar(a[1..], c, rep)) + ReplaceChar(b, c, rep);
      }
    } else {
      assert a + b == b;
    }
  }

  lemma ReplaceCharAbsent(s: string, c: char, rep: string)
    requires c !in s
    ensures ReplaceChar(s, c, rep) == s
  {
    if s != [] {
      ReplaceCharAbsent(s[1..], c, rep);
    }
  }

  lemma EscapeStepsAppend(a: string, b: string, cs: string)
    ensures EscapeSteps(a + b, cs) == EscapeSteps(a, cs) + EscapeSteps(b, cs)
    decreases |cs|
  {
    if cs != [] {
      ReplaceCharAppend(a, b, cs[0], ['\\', cs[0]]);
      EscapeStepsAppend(ReplaceChar(a, cs[0], ['\\', cs[0]]), ReplaceChar(b, cs[0], ['\\', cs[0]]), cs[1..]);
    }
  }

  lemma EscapeStepsAbsent(s: string, cs: string)
    requires forall i :: 0 <= i < |cs| ==> cs[i] !in s
    ensures EscapeSteps(s, cs) == s
    decreases |cs|
  {
    if cs != [] {
      ReplaceCharAbsent(s, cs[0], ['\\', cs[0]]);
      EscapeStepsAbsent(s, cs[1..]);
    }
  }

  lemma EscapeStepsChar(x: char, cs: string)
    requires '\\' !in cs
    requires forall i :: 0 <= i < |cs| ==> cs[i] !in cs[i + 1..]
    ensures EscapeSteps([x], cs) == if x in cs then ['\\', x] else [x]
    decreases |cs|
  {
    if cs != [] {
      if cs[0] == x {
        assert ReplaceChar([x], x, ['\\', x]) == ['\\', x];
        assert x !in cs[1..];
        assert forall i :: 0 <= i < |cs[1..]| ==> cs[1..][i] in cs[1..];
        EscapeStepsAbsent(['\\', x], cs[1..]);
      } else {
        assert ReplaceChar([x], cs[0], ['\\', cs[0]]) == [x];
        EscapeStepsChar(x, cs[1..]);
      }
    }
  }

  /** The chain of replacements in `regSafeText` escapes each special character
      exactly once: an inserted backslash is never itself escaped by a later step. */
  lemma SpecialsDistinct()
    ensures '\\' !in RegexSpecials
    ensures forall i :: 0 <= i < |RegexSpecials| ==> RegexSpecials[i] !in RegexSpecials[i + 1..]
  {
    assert RegexSpecials == ['*', '.', '+', '^', '[', ']', '?', '$', '(', ')', '|'];
  }

  lemma SpecialsListed(c: char)
    ensures c in RegexSpecials <==> IsRegexSpecial(c)
  {
    assert RegexSpecials == ['*', '.', '+', '^', '[', ']', '?', '$', '(', ')', '|'];
  }

  lemma {:induction false} RegSafeTextIsEscape(s: string)
    ensures RegSafeText(s) == Escape(s)
  {
    if s != [] {
      SpecialsDistinct();
      assert s == [s[0]] + s[1..];
      EscapeStepsAppend([s[0]], s[1..], RegexSpecials);
      EscapeStepsChar(s[0], RegexSpecials);
      SpecialsListed(s[0]);
      assert EscapeSteps([s[0]], RegexSpecials) == EscapeChar(s[0]);
      RegSafeTextIsEscape(s[1..]);
      assert RegSafeText(s) == EscapeChar(s[0]) + RegSafeText(s[1..]);
    } else {
      EscapeStepsAbsent(s, RegexSpecials);
    }
  }

  lemma {:induction false} EscapeLength(s: string)
    ensures |Escape(s)| == |s| + CountSpecials(s)
  {
    if s != [] {
      EscapeLength(s[1..]);
    }
  }

  // ---------------------------------------------------------------------------
  // What a pattern made of literal atoms matches

  /** The characters a backslash turns into themselves: `SyntaxCharacter` and
      `/` (section 22.2.1 of ECMA-262). */
  predicate IsSyntaxChar(c: char) {
    IsRegexSpecial(c) || c == '\\' || c == '{' || c == '}' || c == '/'
  }

  /** The characters that are not literal atoms when they stand alone: anchors,
      the wildcard, quantifiers, groups, classes and alternation. A lone `]` or
      `}` is read literally by browsers (Annex B) but is counted here among the
      non-literals, which only makes `Denotes` decline more patterns. */
  predicate IsNonLiteral(c: char) {
    IsRegexSpecial(c) || c == '{' || c == '}'
  }

  /** The control escapes `\n`, `\t`, `\r`, `\f` and `\v` stand for one control
      character each; any other letter after a backslash is not a literal here. */
  function ControlEscape(c: char): (r: Option<char>)
    ensures r.Some? ==> c in "ntrfv"
  {
    if c == 'n' then Some('\n')
    else if c == 't' then Some('\t')
    else if c == 'r' then Some('\r')
    else if c == 'f' then Some('\U{000C}')
    else if c == 'v' then Some('\U{000B}')
    else None
  }

  /** The literal atom at the front of a pattern: the character it stands for
      and how many pattern characters it takes. */
  function Atom(e: string): (r: Option<(char, nat)>)
    requires e != []
    ensures r.Some? ==> 1 <= r.value.1 <= |e| && r.value.1 <= 2
  {
    if e[0] == '\\' then
      if |e| == 1 then None
      else if IsSyntaxChar(e[1]) then Some((e[1], 2))
      else match ControlEscape(e[1])
        case None => None
        case Some(x) => Some((x, 2))
    else if IsNonLiteral(e[0]) then None
    else Some((e[0], 1))
  }

  /** The one string a pattern matches when it is a sequence of literal atoms
      (plain characters, escaped syntax characters, control escapes); `None`
      for any other pattern. Each atom stands for exactly one character. */
  function Denotes(e: string): Option<string>
    decreases |e|
  {
    if e == [] then Some([])
    else match Atom(e)
      case None => None
      case Some((c, w)) =>
        match Denotes(e[w..])
        case None => None
        case Some(t) => Some([c] + t)
  }

  /** A text with neither a backslash nor a brace. */
  predicate NoBackslashOrBrace(s: string) {
    forall i :: 0 <= i < |s| ==> s[i] != '\\' && s[i] != '{' && s[i] != '}'
  }

  /** The escape is exact for texts without backslashes and braces: the pattern
      matches the text and nothing else. */
  lemma {:induction false} EscapeDenotes(s: string)
    requires NoBackslashOrBrace(s)
    ensures Denotes(Escape(s)) == Some(s)
  {
    if s != [] {
      var rest := Escape(s[1..]);
      assert NoBackslashOrBrace(s[1..]) by {
        forall i | 0 <= i < |s[1..]| ensures s[1..][i] != '\\' && s[1..][i] != '{' && s[1..][i] != '}' {
          assert s[1..][i] == s[i + 1];
        }
      }
      EscapeDenotes(s[1..]);
      assert s[0] != '\\' && s[0] != '{' && s[0] != '}';
      if IsRegexSpecial(s[0]) {
        assert Escape(s) == ['\\', s[0]] + rest;
        assert (['\\', s[0]] + rest)[2..] == rest;
      } else {
        assert Escape(s) == [s[0]] + rest;
        assert ([s[0]] + rest)[1..] == rest;
      }
      assert [s[0]] + s[1..] == s;
    }
  }

  /** What `regSafeText` achieves: one backslash more per escaped character,
      and, for a text without backslashes and braces, a pattern that matches
      exactly that text. */
  lemma RegSafeTextSpec(s: string)
    ensures |RegSafeText(s)| == |s| + CountSpecials(s)
    ensures NoBackslashOrBrace(s) ==> Denotes(RegSafeText(s)) == Some(s)
  {
    RegSafeTextIsEscape(s);
    EscapeLength(s);
    if NoBackslashOrBrace(s) {
      EscapeDenotes(s);
    }
  }

  /** A text of plain characters stands for itself. */
  predicate Plain(s: string) {
    forall i :: 0 <= i < |s| ==> !IsPatternSpecial(s[i])
  }

  /** Around a backslash and an `n` that `regSafeText` leaves alone, the
      pattern it builds matches a newline where the text has the two
      characters: the text itself is not matched. */
  lemma RegSafeTextBackslash(a: string, b: string)
    requires Plain(a) && Plain(b)
    ensures RegSafeText(a + ['\\', 'n'] + b) == a + ['\\', 'n'] + b
    ensures Denotes(RegSafeText(a + ['\\', 'n'] + b)) == Some(a + ['\n'] + b)
    ensures Denotes(RegSafeText(a + ['\\', 'n'] + b)) != Some(a + ['\\', 'n'] + b)
  {
    var v := a + ['\\', 'n'] + b;
    forall i | 0 <= i < |v| ensures !IsRegexSpecial(v[i]) {
      if i < |a| {
        assert v[i] == a[i];
      } else if i >= |a| + 2 {
        assert v[i] == b[i - |a| - 2];
      }
    }
    RegSafeTextOfPlain(v);
    NewlineThenPlain(b);
    PlainPrefixDenotes(a, ['\\', 'n'] + b);
    Assoc(a, ['\\', 'n'], b);
    Assoc(a, ['\n'], b);
    var w := a + ['\n'] + b;
    assert w[|a|] == '\n';
    assert v[|a|] == '\\';
  }

  lemma Assoc(a: string, m: string, b: string)
    ensures a + m + b == a + (m + b)
  {
  }

  /** Plain characters in front of a pattern are matched as themselves. */
  lemma {:induction false} PlainPrefixDenotes(a: string, rest: string)
    requires Plain(a) && Denotes(rest).Some?
    ensures Denotes(a + rest) == Some(a + Denotes(rest).value)
  {
    if a == [] {
      assert a + rest == rest;
      assert a + Denotes(rest).value == Denotes(rest).value;
    } else {
      assert Plain(a[1..]) by {
        forall i | 0 <= i < |a[1..]| ensures !IsPatternSpecial(a[1..][i]) {
          assert a[1..][i] == a[i + 1];
        }
      }
      PlainPrefixDenotes(a[1..], rest);
      var e := a + rest;
      assert e[0] == a[0] && e[1..] == a[1..] + rest;
      assert Atom(e) == Some((a[0], 1));
      assert [a[0]] + (a[1..] + Denotes(rest).value) == a + Denotes(rest).value;
    }
  }

  /** `\n` in a pattern stands for a newline. */
  lemma NewlineThenPlain(b: string)
    requires Plain(b)
    ensures Denotes(['\\', 'n'] + b) == Some(['\n'] + b)
  {
    var e := ['\\', 'n'] + b;
    assert e[0] == '\\' && e[1] == 'n' && e[2..] == b;
    assert !IsSyntaxChar(e[1]) && ControlEscape(e[1]) == Some('\n');
    assert Atom(e) == Some(('\n', 2));
    PlainPrefixDenotes(b, []);
    assert b + [] == b;
  }

  /** `regSafeText` leaves a text without special characters unchanged. */
  lemma RegSafeTextOfPlain(s: string)
    requires forall i :: 0 <= i < |s| ==> !IsRegexSpecial(s[i])
    ensures RegSafeText(s) == s
  {
    RegSafeTextIsEscape(s);
    EscapeOfPlain(s);
  }

  /** A text without special characters is its own escape. */
  lemma {:induction false} EscapeOfPlain(s: string)
    requires forall i :: 0 <= i < |s| ==> !IsRegexSpecial(s[i])
    ensures Escape(s) == s
  {
    if s != [] {
      EscapeOfPlain(s[1..]);
      assert [s[0]] + s[1..] == s;
    }
  }

  // ---------------------------------------------------------------------------
  // The corrected escape

  /** Every character that is not a literal atom, and the backslash. */
  predicate IsPatternSpecial(c: char) {
    IsNonLiteral(c) || c == '\\'
  }

  function SafeEscapeChar(c: char): string {
    if IsPatternSpecial(c) then ['\\', c] else [c]
  }

  /** `regSafeText` with the backslash and the braces escaped as well. */
  function SafeEscape(s: string): string {
    if s == [] then [] else SafeEscapeChar(s[0]) + SafeEscape(s[1..])
  }

  /** Round trip: the corrected escape always gives a pattern that matches
      exactly the text it was made from. */
  lemma {:induction false} SafeEscapeDenotes(s: string)
    ensures Denotes(SafeEscape(s)) == Some(s)
  {
    if s != [] {
      var rest := SafeEscape(s[1..]);
      SafeEscapeDenotes(s[1..]);
      if IsPatternSpecial(s[0]) {
        assert SafeEscape(s) == ['\\', s[0]] + rest;
        assert (['\\', s[0]] + rest)[2..] == rest;
      } else {
        assert SafeEscape(s) == [s[0]] + rest;
        assert ([s[0]] + rest)[1..] == rest;
      }
      assert [s[0]] + s[1..] == s;
    }
  }

  /** The corrected escape agrees with `regSafeText` on every text without
      backslashes and braces. */
  lemma {:induction false} SafeEscapeAgrees(s: string)
    requires NoBackslashOrBrace(s)
    ensures SafeEscape(s) == RegSafeText(s)
  {
    RegSafeTextIsEscape(s);
    SafeEscapeIsEscape(s);
  }

  lemma {:induction false} SafeEscapeIsEscape(s: string)
    requires NoBackslashOrBrace(s)
    ensures SafeEscape(s) == Escape(s)
  {
    if s != [] {
      assert NoBackslashOrBrace(s[1..]) by {
        forall i | 0 <= i < |s[1..]| ensures s[1..][i] != '\\' && s[1..][i] != '{' && s[1..][i] != '}' {
          assert s[1..][i] == s[i + 1];
        }
      }
      SafeEscapeIsEscape(s[1..]);
      assert SafeEscapeChar(s[0]) == EscapeChar(s[0]);
    }
  }
}
