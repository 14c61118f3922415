/** The `oldText` of a replacer and how `String.prototype.replace` applies it.
    `oldText` is either a string (first occurrence) or one of three regular
    expressions the extractor builds from escaped text; each is represented
    here by the shape it has, and matched with the regex engine's leftmost,
    greedy-with-backtracking semantics. */
module Patterns {
  import opened Wrappers
  import opened Strings
  import opened Text

  datatype Pattern =
    | Literal(text: string)
      // a string `oldText`: its first occurrence
    | GlobalLiteral(text: string)
      // `new RegExp(regSafeText(text), "g")`: every occurrence
    | AttributeBinding(name: string, value: string)
      // `new RegExp(name + "\\s*=\\s*('|\")" + regSafeText(value) + "('|\")")`
    | TextNode(text: string)
      // `new RegExp(">\\s*" + regSafeText(text) + "\\s*<")`

  /** One match: the matched span `[start, end)` and the capture groups. */
  datatype Match = Match(start: nat, end: nat, captures: seq<string>)

  /** A replacer's rewrite: `source.replace(old, newText)`. */
  datatype Rewrite = Rewrite(pattern: Pattern, newText: string)

  predicate IsGlobal(p: Pattern) {
    p.GlobalLiteral?
  }

  /** `name\s*=\s*('|")value('|")` at `i`, with `name` matched as literal
      text. Each `\s*` is followed by a character that is not whitespace, so
      only its longest run can succeed. */
  function AttributeAt(s: string, name: string, value: string, i: nat): (r: Option<Match>)
    ensures r.Some? ==> r.value.start == i && i <= r.value.end <= |s|
  {
    if !OccursAt(s, name, i) then None
    else
      var eq := i + |name| + SpaceRun(s, i + |name|);
      if eq >= |s| || s[eq] != '=' then None
      else
        var q1 := eq + 1 + SpaceRun(s, eq + 1);
        var q2 := q1 + 1 + |value|;
        if q2 >= |s| || !IsQuote(s[q1]) || !OccursAt(s, value, q1 + 1) || !IsQuote(s[q2]) then None
        else Some(Match(i, q2 + 1, [[s[q1]], [s[q2]]]))
  }

  /** `>\s*text\s*<` at `i`, trying the whitespace run after `>` from its
      longest length `k` down, as the backtracking engine does. */
  function TextNodeTry(s: string, text: string, i: nat, k: nat): (r: Option<Match>)
    requires i + 1 + k <= |s|
    ensures r.Some? ==> r.value.start == i && i <= r.value.end <= |s|
    decreases k
  {
    var t := i + 1 + k;
    var lt := t + |text| + (if t + |text| <= |s| then SpaceRun(s, t + |text|) else 0);
    if OccursAt(s, text, t) && lt < |s| && s[lt] == '<' then Some(Match(i, lt + 1, []))
    else if k == 0 then None
    else TextNodeTry(s, text, i, k - 1)
  }

  function TextNodeAt(s: string, text: string, i: nat): (r: Option<Match>)
    ensures r.Some? ==> r.value.start == i && i <= r.value.end <= |s|
  {
    if i < |s| && s[i] == '>' then TextNodeTry(s, text, i, SpaceRun(s, i + 1)) else None
  }

  /** Whether, and how, pattern `p` matches `s` starting exactly at `i`. */
  function MatchAt(s: string, p: Pattern, i: nat): (r: Option<Match>)
    ensures r.Some? ==> r.value.start == i && i <= r.value.end <= |s|
  {
    match p
    case Literal(t) => if OccursAt(s, t, i) then Some(Match(i, i + |t|, [])) else None
    case GlobalLiteral(t) => if OccursAt(s, t, i) then Some(Match(i, i + |t|, [])) else None
    case AttributeBinding(name, value) => AttributeAt(s, name, value, i)
    case TextNode(text) => TextNodeAt(s, text, i)
  }

  function FirstMatchFrom(s: string, p: Pattern, from: nat): (r: Option<Match>)
    ensures r.Some? ==> from <= r.value.start && MatchAt(s, p, r.value.start) == r
    decreases |s| + 1 - from
  {
    if from > |s| then None
    else match MatchAt(s, p, from)
      case Some(m) => Some(m)
      case None => FirstMatchFrom(s, p, from + 1)
  }

  /** The search skips only positions where `p` does not match. */
  lemma {:induction false} FirstMatchFromFirst(s: string, p: Pattern, from: nat)
    requires FirstMatchFrom(s, p, from).Some?
    ensures forall j :: from <= j < FirstMatchFrom(s, p, from).value.start ==> MatchAt(s, p, j).None?
    decreases |s| + 1 - from
  {
    var first := FirstMatchFrom(s, p, from).value.start;
    if first != from {
      assert FirstMatchFrom(s, p, from) == FirstMatchFrom(s, p, from + 1);
      FirstMatchFromFirst(s, p, from + 1);
      forall j | from <= j < first ensures MatchAt(s, p, j).None? {
        if j == from {
          assert MatchAt(s, p, from).None?;
        }
      }
    }
  }

  /** The search finds nothing exactly when `p` matches nowhere from `from` on. */
  lemma {:induction false} FirstMatchFromNone(s: string, p: Pattern, from: nat)
    ensures FirstMatchFrom(s, p, from).None? <==> forall j :: from <= j <= |s| ==> MatchAt(s, p, j).None?
    decreases |s| + 1 - from
  {
    if from <= |s| && MatchAt(s, p, from).None? {
      assert FirstMatchFrom(s, p, from) == FirstMatchFrom(s, p, from + 1);
      FirstMatchFromNone(s, p, from + 1);
      if forall j :: from + 1 <= j <= |s| ==> MatchAt(s, p, j).None? {
        forall j | from <= j <= |s| ensures MatchAt(s, p, j).None? {
          if j == from {
            assert MatchAt(s, p, from).None?;
          }
        }
      }
    }
  }

  /** The leftmost match of `p` in `s`. */
  function FirstMatch(s: string, p: Pattern): (r: Option<Match>)
    ensures r.Some? ==> MatchAt(s, p, r.value.start) == r
  {
    FirstMatchFrom(s, p, 0)
  }

  /** The match found is the leftmost one, and there is none only when `p`
      matches nowhere. */
  lemma FirstMatchLeftmost(s: string, p: Pattern)
    ensures FirstMatch(s, p).Some? ==>
      forall j :: 0 <= j < FirstMatch(s, p).value.start ==> MatchAt(s, p, j).None?
    ensures FirstMatch(s, p).None? <==> forall j :: 0 <= j <= |s| ==> MatchAt(s, p, j).None?
  {
    if FirstMatch(s, p).Some? {
      FirstMatchFromFirst(s, p, 0);
    }
    FirstMatchFromNone(s, p, 0);
  }

  // ---------------------------------------------------------------------------
  // The replace engine, parameterised by how a match is expanded

  /** Every non-overlapping occurrence of a non-empty `t` from `from` on,
      each replaced by the expansion of its match. */
  function GlobalFrom(s: string, t: string, from: nat, expand: Match -> string): string
    requires |t| > 0 && from <= |s|
    decreases |s| - from
  {
    match FindFrom(s, t, from)
    case None => s[from..]
    case Some(i) => s[from..i] + expand(Match(i, i + |t|, [])) + GlobalFrom(s, t, i + |t|, expand)
  }

  /** A global empty pattern matches at every position, the engine stepping
      one character after each empty match. */
  function EmptyGlobalFrom(s: string, from: nat, expand: Match -> string): string
    requires from <= |s|
    decreases |s| - from
  {
    if from == |s| then expand(Match(from, from, []))
    else expand(Match(from, from, [])) + [s[from]] + EmptyGlobalFrom(s, from + 1, expand)
  }

  /** `s.replace(p, ...)`: the leftmost match, or for a global pattern every match. */
  function ReplaceMatches(s: string, p: Pattern, expand: Match -> string): string {
    if p.GlobalLiteral? then
      if |p.text| > 0 then GlobalFrom(s, p.text, 0, expand) else EmptyGlobalFrom(s, 0, expand)
    else
      match FirstMatch(s, p)
      case None => s
      case Some(m) => s[..m.start] + expand(m) + s[m.end..]
  }

  /** Applying a rewrite with its `newText` inserted literally, as `replace`
      does when handed a function that returns `newText`. */
  function ApplyRewrite(s: string, rw: Rewrite): (r: string)
    ensures !IsGlobal(rw.pattern) && FirstMatch(s, rw.pattern).None? ==> r == s
    ensures !IsGlobal(rw.pattern) && FirstMatch(s, rw.pattern).Some? ==>
      var m := FirstMatch(s, rw.pattern).value;
      r == s[..m.start] + rw.newText + s[m.end..]
  {
    ReplaceMatches(s, rw.pattern, (m: Match) => rw.newText)
  }

  // ---------------------------------------------------------------------------
  // Split and join: the reference for global literal replacement

  /** `s.split(t)` for a non-empty separator `t`, from index `from`. */
  function SplitFrom(s: string, t: string, from: nat): (parts: seq<string>)
    requires |t| > 0 && from <= |s|
    ensures |parts| > 0
    decreases |s| - from
  {
    match FindFrom(s, t, from)
    case None => [s[from..]]
    case Some(i) => [s[from..i]] + SplitFrom(s, t, i + |t|)
  }

  /** `parts.join(sep)`. */
  function Join(parts: seq<string>, sep: string): string
    requires |parts| > 0
  {
    if |parts| == 1 then parts[0] else parts[0] + sep + Join(parts[1..], sep)
  }

  lemma {:induction false} JoinSplitFrom(s: string, t: string, from: nat)
    requires |t| > 0 && from <= |s|
    ensures Join(SplitFrom(s, t, from), t) == s[from..]
    decreases |s| - from
  {
    match FindFrom(s, t, from)
    case None =>
    case Some(i) =>
      JoinSplitFrom(s, t, i + |t|);
      var rest := SplitFrom(s, t, i + |t|);
      assert ([s[from..i]] + rest)[1..] == rest;
      assert s[i..i + |t|] == t;
      assert s[from..] == s[from..i] + s[i..i + |t|] + s[i + |t|..];
  }

  lemma {:induction false} GlobalFromIsJoin(s: string, t: string, from: nat, rep: string)
    requires |t| > 0 && from <= |s|
    ensures GlobalFrom(s, t, from, (m: Match) => rep) == Join(SplitFrom(s, t, from), rep)
    decreases |s| - from
  {
    match FindFrom(s, t, from)
    case None =>
    case Some(i) =>
      GlobalFromIsJoin(s, t, i + |t|, rep);
      var rest := SplitFrom(s, t, i + |t|);
      assert ([s[from..i]] + rest)[1..] == rest;
  }

  /** Global literal replacement splits the text on the pattern and joins the
      pieces with the replacement; joining them with the pattern itself gives
      the text back. */
  lemma GlobalRewriteIsSplitJoin(s: string, t: string, rep: string)
    requires |t| > 0
    ensures var parts := SplitFrom(s, t, 0);
      && ApplyRewrite(s, Rewrite(GlobalLiteral(t), rep)) == Join(parts, rep)
      && Join(parts, t) == s
  {
    GlobalFromIsJoin(s, t, 0, rep);
    JoinSplitFrom(s, t, 0);
  }

  /** `s.replace(/pat/g, "")` with a literal, non-empty `pat`. */
  function RemoveAll(s: string, pat: string): (r: string)
    requires |pat| > 0
    ensures !Contains(s, pat) ==> r == s
  {
    GlobalFromIsJoin(s, pat, 0, "");
    if !Contains(s, pat) then
      assert FindFrom(s, pat, 0).None?;
      assert s[0..] == s;
      ApplyRewrite(s, Rewrite(GlobalLiteral(pat), ""))
    else ApplyRewrite(s, Rewrite(GlobalLiteral(pat), ""))
  }
}
