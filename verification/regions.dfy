/** Region splitting in `utils.js`: `removeComments`, `matchScript`,
    `matchTemplate` and `matchDefaultObject`, each the leftmost match of its
    regular expression. */
module Regions {
  import opened Wrappers
  import opened Strings
  import opened Text

  // ---------------------------------------------------------------------------
  // removeComments: source.replace(/<!--[\s\S]*?-->/igm, "")

  /** No `<!--` is followed, four or more characters on, by a `-->`. */
  ghost predicate NoComment(s: string) {
    forall i, j :: OccursAt(s, "<!--", i) && i + 4 <= j ==> !OccursAt(s, "-->", j)
  }

  /** Every `<!--` with a later `-->` is removed, up to and including the first
      such `-->`; scanning resumes after it. */
  function RemoveComments(s: string): (r: string)
    ensures NoComment(s) ==> r == s
    ensures |r| <= |s|
    decreases |s|
  {
    match Find(s, "<!--")
    case None => s
    case Some(i) =>
      match FindFrom(s, "-->", i + 4)
      case None => s
      case Some(j) => s[..i] + RemoveComments(s[j + 3..])
  }

  /** A complete comment is cut out together with everything up to its first
      `-->`; the text before it, which opens no comment, is kept verbatim. */
  lemma {:induction false} CommentRemoved(pre: string, body: string, rest: string)
    requires !Contains(pre + "<!-", "<!--")
    requires !Contains(body + "--", "-->")
    ensures RemoveComments(pre + "<!--" + body + "-->" + rest) == pre + RemoveComments(rest)
  {
    var s := pre + "<!--" + body + "-->" + rest;
    var i := |pre|;
    var j := |pre| + 4 + |body|;
    assert s[..i + 3] == pre + "<!-";
    forall k | 0 <= k < i ensures !OccursAt(s, "<!--", k) {
      OccursWithin(s, "<!--", 0, i + 3, k);
      assert !OccursAt(pre + "<!-", "<!--", k);
    }
    assert s[i..i + 4] == "<!--";
    FindFromIs(s, "<!--", 0, i);
    assert s[i + 4..j + 2] == body + "--";
    forall k | i + 4 <= k < j ensures !OccursAt(s, "-->", k) {
      OccursWithin(s, "-->", i + 4, j + 2, k);
      assert !OccursAt(body + "--", "-->", k - (i + 4));
    }
    assert s[j..j + 3] == "-->";
    FindFromIs(s, "-->", i + 4, j);
    assert s[..i] == pre;
    assert s[j + 3..] == rest;
  }

  // ---------------------------------------------------------------------------
  // matchTemplate: source.match(/<template>([\s\S]*)<\/template>/)

  /** The regex can match from a `<template>` at `i` to a `</template>` at `j`. */
  predicate TemplateAt(s: string, i: int, j: int) {
    OccursAt(s, "<template>", i) && i + 10 <= j && OccursAt(s, "</template>", j)
  }

  /** Where the match lies: the first `<template>`, and the greedy body ending
      at the last `</template>` after it. */
  function TemplateSpan(s: string): (r: Option<(nat, nat)>)
    ensures r.Some? ==> TemplateAt(s, r.value.0, r.value.1)
    ensures r.Some? ==> forall k :: 0 <= k < r.value.0 ==> !OccursAt(s, "<template>", k)
    ensures r.Some? ==> forall k :: r.value.1 < k ==> !OccursAt(s, "</template>", k)
    ensures r.None? <==> forall i, j :: !TemplateAt(s, i, j)
  {
    match Find(s, "<template>")
    case None => None
    case Some(i) =>
      match FindLast(s, "</template>", i + 10)
      case None => None
      case Some(j) =>
        assert TemplateAt(s, i, j);
        Some((i, j))
  }

  /** The whole match `matched[0]`. */
  function MatchTemplate(s: string): (r: Option<string>)
    ensures r.Some? ==> |r.value| >= 21 && r.value[..10] == "<template>"
                        && r.value[|r.value| - 11..] == "</template>"
    ensures r.Some? ==> exists i :: OccursAt(s, r.value, i)
    ensures r.None? <==> forall i, j :: !TemplateAt(s, i, j)
  {
    match TemplateSpan(s)
    case None => None
    case Some((i, j)) =>
      TemplateEnds(s, i, j);
      Some(s[i..j + 11])
  }

  lemma TemplateEnds(s: string, i: nat, j: nat)
    requires TemplateAt(s, i, j)
    ensures var m := s[i..j + 11];
      m[..10] == "<template>" && m[|m| - 11..] == "</template>" && OccursAt(s, m, i)
  {
    var m := s[i..j + 11];
    assert m[..10] == s[i..i + 10];
    assert m[|m| - 11..] == s[j..j + 11];
  }

  // ---------------------------------------------------------------------------
  // matchScript: source.match(/([\s\S]*?<script[^>]*>)([\s\S]*)(<\/script>[\s\S]*)/)

  /** The three groups of `matchScript`: everything up to the end of the first
      `<script…>` tag, the script body, and the rest from the last `</script>`. */
  datatype ScriptMatch = ScriptMatch(head: string, body: string, tail: string)

  /** The regex can match with `<script` at `i`, the tag's `>` at `g` and
      `</script>` at `j`. */
  predicate ScriptTagAt(s: string, i: int, g: int, j: int) {
    && OccursAt(s, "<script", i) && i + 7 <= g < |s| && s[g] == '>'
    && g < j && OccursAt(s, "</script>", j)
  }

  /** Where the groups split: the first `<script`, the first `>` after it (the
      tag's `[^>]*` cannot pass one), the last `</script>` after that. A later
      `<script` cannot help when the first one fails, since its `>` and
      `</script>` would have to lie further on still. */
  function ScriptSpan(s: string): (r: Option<(nat, nat, nat)>)
    ensures r.Some? ==> ScriptTagAt(s, r.value.0, r.value.1, r.value.2)
    ensures r.Some? ==> '>' !in s[r.value.0 + 7..r.value.1]
    ensures r.Some? ==> forall k :: 0 <= k < r.value.0 ==> !OccursAt(s, "<script", k)
    ensures r.Some? ==> forall k :: r.value.2 < k ==> !OccursAt(s, "</script>", k)
    ensures r.None? <==> forall i, g, j :: !ScriptTagAt(s, i, g, j)
  {
    match Find(s, "<script")
    case None => None
    case Some(i) =>
      match FindFrom(s, ">", i + 7)
      case None =>
        assert forall i', g', j' :: !ScriptTagAt(s, i', g', j') by {
          forall i', g', j' | ScriptTagAt(s, i', g', j') ensures false {
            OccursChar(s, '>', g');
          }
        }
        None
      case Some(g) =>
        OccursChar(s, '>', g);
        match FindLast(s, "</script>", g + 1)
        case None =>
          assert forall i', g', j' :: !ScriptTagAt(s, i', g', j') by {
            forall i', g', j' | ScriptTagAt(s, i', g', j') ensures false {
              OccursChar(s, '>', g');
            }
          }
          None
        case Some(j) =>
          assert '>' !in s[i + 7..g] by {
            forall k | i + 7 <= k < g ensures s[k] != '>' {
              OccursChar(s, '>', k);
            }
          }
          assert ScriptTagAt(s, i, g, j);
          Some((i, g, j))
  }

  function MatchScript(s: string): (r: Option<ScriptMatch>)
    ensures r.Some? ==> r.value.head + r.value.body + r.value.tail == s
    ensures r.Some? <==> ScriptSpan(s).Some?
    ensures r.Some? ==> |r.value.head| == ScriptSpan(s).value.1 + 1
                        && |r.value.head| + |r.value.body| == ScriptSpan(s).value.2
  {
    match ScriptSpan(s)
    case None => None
    case Some((i, g, j)) =>
      CutThree(s, g + 1, j);
      Some(ScriptMatch(s[..g + 1], s[g + 1..j], s[j..]))
  }

  /** `/<script[^>]*setup/.test(source)`: some opening script tag mentions
      `setup` before any `>`. */
  predicate IsComposable(s: string) {
    ComposableFrom(s, 0)
  }

  /** Some `<script` at `i` or later is followed by `setup` before any `>`. */
  function ComposableFrom(s: string, i: nat): bool
    decreases |s| - i
  {
    if i + 7 > |s| then false
    else (OccursAt(s, "<script", i) && SetupAhead(s, i + 7)) || ComposableFrom(s, i + 1)
  }

  /** `setup` occurs at `k` or later with no `>` in between. */
  function SetupAhead(s: string, k: nat): bool
    decreases |s| - k
  {
    if OccursAt(s, "setup", k) then true
    else if k < |s| && s[k] != '>' then SetupAhead(s, k + 1)
    else false
  }

  /** No `>` in `s[a..k]`. */
  predicate NoCloseBetween(s: string, a: nat, k: nat) {
    a <= k <= |s| && forall j :: a <= j < k ==> s[j] != '>'
  }

  /** The regex matches with `<script` at `i` and `setup` at `k`. */
  predicate ComposableMatch(s: string, i: nat, k: nat) {
    OccursAt(s, "<script", i) && OccursAt(s, "setup", k) && NoCloseBetween(s, i + 7, k)
  }

  lemma {:induction false} SetupAheadIff(s: string, a: nat, k: nat)
    requires NoCloseBetween(s, a, k)
    ensures SetupAhead(s, k) <==> exists k' :: k <= k' && OccursAt(s, "setup", k') && NoCloseBetween(s, a, k')
    decreases |s| - k
  {
    if OccursAt(s, "setup", k) {
    } else if k < |s| && s[k] != '>' {
      SetupAheadIff(s, a, k + 1);
      if exists k' :: k <= k' && OccursAt(s, "setup", k') && NoCloseBetween(s, a, k') {
        var k' :| k <= k' && OccursAt(s, "setup", k') && NoCloseBetween(s, a, k');
        assert k' != k;
      }
    } else {
      forall k' | k <= k' && OccursAt(s, "setup", k') ensures !NoCloseBetween(s, a, k') {
        assert k' != k;
      }
    }
  }

  lemma {:induction false} ComposableFromIff(s: string, i: nat)
    ensures ComposableFrom(s, i) <==> exists i', k :: i <= i' && ComposableMatch(s, i', k)
    decreases |s| - i
  {
    if i + 7 > |s| {
      forall i', k | i <= i' ensures !ComposableMatch(s, i', k) {
        assert !OccursAt(s, "<script", i');
      }
    } else {
      ComposableFromIff(s, i + 1);
      SetupAheadIff(s, i + 7, i + 7);
      if exists i', k :: i <= i' && ComposableMatch(s, i', k) {
        var i', k :| i <= i' && ComposableMatch(s, i', k);
        if i' == i {
          assert SetupAhead(s, i + 7);
        } else {
          assert exists i', k :: i + 1 <= i' && ComposableMatch(s, i', k);
        }
      }
      if OccursAt(s, "<script", i) && SetupAhead(s, i + 7) {
        var k :| i + 7 <= k && OccursAt(s, "setup", k) && NoCloseBetween(s, i + 7, k);
        assert ComposableMatch(s, i, k);
      }
    }
  }

  /** The scan agrees with the regex: some `<script` tag mentions `setup`
      before its `>`. */
  lemma IsComposableIff(s: string)
    ensures IsComposable(s) <==> exists i, k :: ComposableMatch(s, i, k)
  {
    ComposableFromIff(s, 0);
  }

  // ---------------------------------------------------------------------------
  // matchDefaultObject: source.match(/(export\s+default\s*)([\s\S]+)/)

  /** The match: where it starts (`index`), the whole match (`[0]`, which runs
      to the end of the input) and the exported object text (`[2]`). */
  datatype DefaultExport = DefaultExport(index: nat, whole: string, objectText: string)

  /** `t` reads `export`, a non-empty run of blanks `w1`, `default`, a run of
      blanks `w2`, and a non-empty rest `o`: one way for the regex to match all
      of `t`. */
  ghost predicate ExportSplit(t: string, w1: string, w2: string, o: string) {
    && |w1| > 0 && AllSpace(w1) && AllSpace(w2) && |o| > 0
    && t == "export" + w1 + "default" + w2 + o
  }

  /** The match at `p`: the `export default` part, then the object. */
  function DefaultExportAt(s: string, p: nat): (r: Option<DefaultExport>)
    ensures r.Some? ==> r.value.index == p < |s| && r.value.whole == s[p..]
    ensures r.Some? ==> OccursAt(s, r.value.whole, p)
    ensures r.Some? ==> 0 < |r.value.objectText| <= |s| && r.value.objectText == s[|s| - |r.value.objectText|..]
    ensures r.Some? ==> !IsSpace(r.value.objectText[0]) || |r.value.objectText| == 1
  {
    match KeywordEnd(s, p)
    case None => None
    case Some(e) => ObjectAfter(s, p, e)
  }

  /** `export\s+default` at `p`: `export`, then the run of blanks (the only
      one `default` can follow), then `default`; the index just after it. */
  function KeywordEnd(s: string, p: nat): (r: Option<nat>)
    ensures r.Some? ==> p + 14 <= r.value <= |s| && OccursAt(s, "export", p)
    ensures r.Some? ==> OccursAt(s, "default", r.value - 7) && SpacesBetween(s, p + 6, r.value - 7)
  {
    if !OccursAt(s, "export", p) then None
    else
      var w1 := SpaceRun(s, p + 6);
      if w1 == 0 || !OccursAt(s, "default", p + 6 + w1) then None
      else Some(p + 13 + w1)
  }

  /** After `default` at `e`: the longest run of blanks that still leaves one
      character for `[\s\S]+`, and that rest up to the end of the input. The
      match fails only when nothing follows `default`. */
  function ObjectAfter(s: string, p: nat, e: nat): (r: Option<DefaultExport>)
    requires p < e <= |s|
    ensures r.None? <==> e == |s|
    ensures r.Some? ==> r.value.index == p && r.value.whole == s[p..]
    ensures r.Some? ==> var o := |s| - |r.value.objectText|;
      e <= o < |s| && SpacesBetween(s, e, o) && r.value.objectText == s[o..]
    ensures r.Some? ==> !IsSpace(r.value.objectText[0]) || |r.value.objectText| == 1
  {
    var w2 := SpaceRun(s, e);
    if e + w2 < |s| then Some(DefaultExport(p, s[p..], s[e + w2..]))
    else if w2 > 0 then
      Some(DefaultExport(p, s[p..], s[|s| - 1..]))
    else None
  }

  /** What the match reports is one way for the regex to match. */
  lemma DefaultExportSplits(s: string, p: nat)
    requires DefaultExportAt(s, p).Some?
    ensures var m := DefaultExportAt(s, p).value;
      exists w1, w2 :: ExportSplit(m.whole, w1, w2, m.objectText)
  {
    var e := KeywordEnd(s, p).value;
    var m := ObjectAfter(s, p, e).value;
    var o := |s| - |m.objectText|;
    SplitExport(s, p, e, o);
  }

  /** Conversely, wherever the regex can match, the match is found. */
  lemma DefaultExportComplete(s: string, p: nat, w1: string, w2: string, o: string)
    requires p <= |s| && ExportSplit(s[p..], w1, w2, o)
    ensures DefaultExportAt(s, p).Some?
  {
    var d := p + 6 + |w1|;
    KeywordsAt(s, p, w1, w2, o);
    assert s[d] == s[d..d + 7][0];
    SpaceRunIs(s, p + 6, |w1|);
    assert KeywordEnd(s, p) == Some(d + 7);
  }

  /** The pieces of a split, read off `s` itself. */
  lemma KeywordsAt(s: string, p: nat, w1: string, w2: string, o: string)
    requires p <= |s| && ExportSplit(s[p..], w1, w2, o)
    ensures OccursAt(s, "export", p) && SpacesBetween(s, p + 6, p + 6 + |w1|)
    ensures OccursAt(s, "default", p + 6 + |w1|) && p + 13 + |w1| < |s|
  {
    var t := s[p..];
    var d := p + 6 + |w1|;
    assert t == "export" + w1 + ("default" + w2 + o);
    assert s[p..p + 6] == t[..6] == "export";
    forall i | p + 6 <= i < d ensures IsSpace(s[i]) {
      assert s[i] == t[i - p] == w1[i - p - 6];
    }
    assert s[d..d + 7] == t[6 + |w1|..13 + |w1|] == "default";
  }

  /** The regex's pieces: `export` at `p`, `default` ending at `e`, the
      object from `o`. */
  lemma SplitExport(s: string, p: nat, e: nat, o: nat)
    requires OccursAt(s, "export", p) && p + 14 <= e <= o < |s|
    requires OccursAt(s, "default", e - 7)
    requires SpacesBetween(s, p + 6, e - 7) && SpacesBetween(s, e, o)
    ensures ExportSplit(s[p..], s[p + 6..e - 7], s[e..o], s[o..])
  {
    SpacesBetweenSlice(s, p + 6, e - 7);
    SpacesBetweenSlice(s, e, o);
    assert s[p..] == s[p..p + 6] + s[p + 6..e - 7] + s[e - 7..e] + s[e..o] + s[o..];
  }

  function MatchDefaultObjectFrom(s: string, p: nat): (r: Option<DefaultExport>)
    ensures r.Some? ==> p <= r.value.index && DefaultExportAt(s, r.value.index) == r
    decreases |s| - p
  {
    if p >= |s| then None
    else match DefaultExportAt(s, p)
      case Some(m) => Some(m)
      case None => MatchDefaultObjectFrom(s, p + 1)
  }

  /** The search skips only places where the regex cannot match. */
  lemma {:induction false} MatchDefaultObjectFromFirst(s: string, p: nat)
    requires MatchDefaultObjectFrom(s, p).Some?
    ensures forall q :: p <= q < MatchDefaultObjectFrom(s, p).value.index ==> DefaultExportAt(s, q).None?
    decreases |s| - p
  {
    var first := MatchDefaultObjectFrom(s, p).value.index;
    if first != p {
      assert MatchDefaultObjectFrom(s, p) == MatchDefaultObjectFrom(s, p + 1);
      MatchDefaultObjectFromFirst(s, p + 1);
      forall q | p <= q < first ensures DefaultExportAt(s, q).None? {
        if q == p {
          assert DefaultExportAt(s, p).None?;
        }
      }
    }
  }

  /** The search finds nothing exactly when the regex matches nowhere from `p` on. */
  lemma {:induction false} MatchDefaultObjectFromNone(s: string, p: nat)
    ensures MatchDefaultObjectFrom(s, p).None? <==> forall q :: p <= q ==> DefaultExportAt(s, q).None?
    decreases |s| - p
  {
    if p >= |s| {
      forall q | p <= q ensures DefaultExportAt(s, q).None? {
        assert !OccursAt(s, "export", q);
      }
    } else if DefaultExportAt(s, p).None? {
      assert MatchDefaultObjectFrom(s, p) == MatchDefaultObjectFrom(s, p + 1);
      MatchDefaultObjectFromNone(s, p + 1);
      if forall q :: p + 1 <= q ==> DefaultExportAt(s, q).None? {
        forall q | p <= q ensures DefaultExportAt(s, q).None? {
          if q == p {
            assert DefaultExportAt(s, p).None?;
          }
        }
      }
    }
  }

  /** The leftmost match of the `export default` regex. */
  function MatchDefaultObject(s: string): (r: Option<DefaultExport>)
    ensures r.Some? ==> DefaultExportAt(s, r.value.index) == r
  {
    MatchDefaultObjectFrom(s, 0)
  }

  /** The match found is the leftmost one, and there is none only when the
      regex matches nowhere. */
  lemma MatchDefaultObjectLeftmost(s: string)
    ensures MatchDefaultObject(s).Some? ==>
      forall q :: 0 <= q < MatchDefaultObject(s).value.index ==> DefaultExportAt(s, q).None?
    ensures MatchDefaultObject(s).None? <==> forall q :: 0 <= q ==> DefaultExportAt(s, q).None?
  {
    if MatchDefaultObject(s).Some? {
      MatchDefaultObjectFromFirst(s, 0);
    }
    MatchDefaultObjectFromNone(s, 0);
  }
}
