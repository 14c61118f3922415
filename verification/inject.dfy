/** The code `utils.js` injects once a file has been rewritten: the import (or
    inline table) of the messages, the lookup function, and where
    `insertTransMethod` and `insertComposableTransMethod` put them. */
module Inject {
  import opened Wrappers
  import opened Strings
  import opened Text
  import opened Patterns
  import opened Regions

  /** The comment the plugin reads as "already processed". */
  const DisableMarker: string := "/* viai18n-disable */"

  // ---------------------------------------------------------------------------
  // The injected texts

  /** The name of the messages object, `${transMethod}Messages`. */
  function MessagesName(tm: string): string {
    tm + "Messages"
  }

  /** `insertMessages`: import the messages file next to the component. */
  function InsertMessages(filename: string, tm: string): string {
    "\n    " + DisableMarker + ImportLine(filename, tm)
  }

  function ImportLine(filename: string, tm: string): string {
    "\n    import " + MessagesName(tm) + ImportFrom(filename)
  }

  function ImportFrom(filename: string): string {
    " from \"./" + filename + ".messages.json\";\n  "
  }

  /** `insertCompressedMessages`, given the JSON text of the compressed table;
      the emitted code rebuilds `{language: {key: text}}` from it. */
  function InsertCompressedMessages(tm: string, compressedJson: string): string {
    "\n    " + DisableMarker + CompressedTable(tm, compressedJson)
  }

  function CompressedTable(tm: string, compressedJson: string): string {
    "\n    const _cm = " + compressedJson + ";\n    const " + MessagesName(tm)
    + " = _cm.slice(1).reduce((a, l) => ({ ...a, [l.at(-1)]: _cm[0].reduce((m, k, i) => ({ ...m, [k]: l[i] }), {}), }), {});\n  "
  }

  /** The messages part: inline table when one is given, import otherwise. */
  function InsertString(filename: string, tm: string, compressedJson: Option<string>): (r: string)
    ensures OccursAt(r, DisableMarker, 5)
  {
    match compressedJson
    case Some(j) => CompressedMarked(tm, j); InsertCompressedMessages(tm, j)
    case None => ImportMarked(filename, tm); InsertMessages(filename, tm)
  }

  /** The two lookups `getComposableTransMethodString` and
      `getTransMethodString` generate for a default language and lookup name:
      a `const` arrow function and an options-API method. Their text is browser
      code the plugin only emits, so it is an input here. */
  datatype Lookups = Lookups(composable: string, options: string)

  /** `modifiedExport`: the original export proxied with the lookup method. */
  function ModifiedExport(messageProp: string): string {
    "\n      if ($defaultObject.methods){\n        Object.assign($defaultObject.methods,{" + messageProp
    + "})\n      }else{\n        $defaultObject.methods = {" + messageProp
    + "}\n      }\n      export default $defaultObject\n    "
  }

  /** What replaces `export default <object>` in an options-API script. */
  function ExportReplacement(insert: string, objectText: string, messageProp: string): string {
    insert + ProxiedExport(objectText, messageProp)
  }

  /** The exported object bound to `$defaultObject`, then the proxy. */
  function ProxiedExport(objectText: string, messageProp: string): string {
    "const $defaultObject = " + objectText + "\n" + ModifiedExport(messageProp)
  }

  /** Both messages parts open with a newline, four blanks and the marker. */
  lemma MarkerLeads(rest: string)
    ensures OccursAt("\n    " + DisableMarker + rest, DisableMarker, 5)
  {
    ContainsMiddle("\n    ", DisableMarker, rest);
  }

  lemma ImportMarked(filename: string, tm: string)
    ensures OccursAt(InsertMessages(filename, tm), DisableMarker, 5)
  {
    MarkerLeads(ImportLine(filename, tm));
  }

  lemma CompressedMarked(tm: string, compressedJson: string)
    ensures OccursAt(InsertCompressedMessages(tm, compressedJson), DisableMarker, 5)
  {
    MarkerLeads(CompressedTable(tm, compressedJson));
  }

  // ---------------------------------------------------------------------------
  // The body of an existing `setup(...) {` in an options-API script

  function Delta(c: char): int {
    if c == '{' then 1 else if c == '}' then -1 else 0
  }

  /** Opening minus closing braces in `s`. */
  function Net(s: string): int {
    if s == [] then 0 else Net(s[..|s| - 1]) + Delta(s[|s| - 1])
  }

  /** No prefix of `s` closes more braces than it opens. */
  ghost predicate NeverNegative(s: string) {
    forall k :: 0 <= k <= |s| ==> Net(s[..k]) >= 0
  }

  ghost predicate Balanced(s: string) {
    Net(s) == 0 && NeverNegative(s)
  }

  lemma NetAppend(s: string, c: char)
    ensures Net(s + [c]) == Net(s) + Delta(c)
  {
    assert (s + [c])[..|s|] == s;
  }

  lemma NeverNegativeAppend(s: string, c: char)
    requires NeverNegative(s) && Net(s) + Delta(c) >= 0
    ensures NeverNegative(s + [c])
  {
    NetAppend(s, c);
    forall k | 0 <= k <= |s| + 1 ensures Net((s + [c])[..k]) >= 0 {
      if k <= |s| {
        assert (s + [c])[..k] == s[..k];
      } else {
        assert (s + [c])[..k] == s + [c];
      }
    }
  }

  /** The loop of `findFunctionText` from `index` on, `depth` being the brace
      depth since `start`: the first `}` that takes the depth below zero ends
      the function body. */
  function ScanBody(text: string, start: nat, index: nat, depth: int): (r: Option<nat>)
    requires start <= index <= |text|
    requires depth == Net(text[start..index]) && NeverNegative(text[start..index])
    ensures r.Some? ==> index <= r.value < |text| && text[r.value] == '}'
    ensures r.Some? ==> Balanced(text[start..r.value])
    ensures r.None? ==> NeverNegative(text[start..])
    decreases |text| - index
  {
    if index == |text| then
      assert text[start..index] == text[start..];
      None
    else
      var d := depth + Delta(text[index]);
      ScanStep(text, start, index, depth);
      if text[index] == '}' && d < 0 then Some(index)
      else ScanBody(text, start, index + 1, d)
  }

  /** One step of the scan: the depth so far is never negative, and unless
      this character closes the body the prefix stays never negative. */
  lemma ScanStep(text: string, start: nat, index: nat, depth: int)
    requires start <= index < |text|
    requires depth == Net(text[start..index]) && NeverNegative(text[start..index])
    ensures depth >= 0
    ensures Net(text[start..index + 1]) == depth + Delta(text[index])
    ensures !(text[index] == '}' && depth + Delta(text[index]) < 0) ==> NeverNegative(text[start..index + 1])
  {
    var cur := text[start..index];
    assert cur[..|cur|] == cur;
    SliceStep(text, start, index);
    if !(text[index] == '}' && depth + Delta(text[index]) < 0) {
      NeverNegativeAppend(cur, text[index]);
    }
  }

  lemma NeverNegativePrefix(b: string, n: nat)
    requires NeverNegative(b) && n <= |b|
    ensures NeverNegative(b[..n])
  {
    forall k | 0 <= k <= n ensures Net(b[..n][..k]) >= 0 {
      assert b[..n][..k] == b[..k];
    }
  }

  /** The scan stops exactly at the `}` that closes a balanced body. */
  lemma {:induction false} ScanFindsClose(text: string, start: nat, index: nat, b: string)
    requires start <= index <= start + |b| < |text|
    requires text[start..start + |b|] == b && text[start + |b|] == '}' && Balanced(b)
    ensures text[start..index] == b[..index - start]
    ensures NeverNegative(text[start..index])
    ensures ScanBody(text, start, index, Net(text[start..index])) == Some(start + |b|)
    decreases start + |b| - index
  {
    SlicePrefix(text, start, index, b);
    NeverNegativePrefix(b, index - start);
    SliceStep(text, start, index);
    if index < start + |b| {
      ScanFindsClose(text, start, index + 1, b);
    }
  }

  /** A prefix of a slice equal to `b` is the same prefix of `b`. */
  lemma SlicePrefix(text: string, start: nat, index: nat, b: string)
    requires start <= index <= start + |b| <= |text| && text[start..start + |b|] == b
    ensures text[start..index] == b[..index - start]
  {
    assert text[start..index] == text[start..start + |b|][..index - start];
  }

  /** Growing a slice by one character adds that character's brace count. */
  lemma SliceStep(text: string, start: nat, index: nat)
    requires start <= index < |text|
    ensures text[start..index + 1] == text[start..index] + [text[index]]
    ensures Net(text[start..index + 1]) == Net(text[start..index]) + Delta(text[index])
  {
    assert text[start..index + 1] == text[start..index] + [text[index]];
    NetAppend(text[start..index], text[index]);
  }

  /** A header at `i`, the text after it up to `e`, and the `}` at `e`. */
  lemma HeaderBodyClose(text: string, header: string, i: nat, e: nat)
    requires OccursAt(text, header, i) && i + |header| <= e < |text| && text[e] == '}'
    ensures OccursAt(text, header + text[i + |header|..e] + "}", i)
  {
    assert text[i..e + 1] == text[i..i + |header|] + text[i + |header|..e] + text[e..e + 1];
  }

  /** `findFunctionText(text, header)`: the text between the header's `{`
      and its matching `}`, or nothing (`undefined`) when it is never closed. */
  function FunctionText(text: string, header: string): (r: Option<string>)
    requires |header| > 0
    ensures r.Some? ==> Balanced(r.value)
    ensures r.Some? && Find(text, header).Some? ==> OccursAt(text, header + r.value + "}", Find(text, header).value)
  {
    var startIndex := match Find(text, header) case Some(i) => i + |header| case None => |header| - 1;
    if startIndex > |text| then None
    else
      assert text[startIndex..startIndex] == [];
      match ScanBody(text, startIndex, startIndex, 0)
      case None => None
      case Some(e) =>
        if Find(text, header).Some? then
          HeaderBodyClose(text, header, Find(text, header).value, e);
          Some(text[startIndex..e])
        else Some(text[startIndex..e])
  }

  /** `findFunctionText` written as the loop it is: the depth counter and
      the early return agree with `FunctionText`. */
  method FindFunctionText(text: string, header: string) returns (r: Option<string>)
    requires |header| > 0
    ensures r == FunctionText(text, header)
    ensures r.Some? ==> Balanced(r.value)
  {
    var startIndex := match Find(text, header) case Some(i) => i + |header| case None => |header| - 1;
    if startIndex > |text| {
      return None;
    }
    assert text[startIndex..startIndex] == [];
    var depth := 0;
    var index := startIndex;
    while index < |text|
      invariant startIndex <= index <= |text|
      invariant depth == Net(text[startIndex..index]) && NeverNegative(text[startIndex..index])
      invariant ScanBody(text, startIndex, index, depth) == ScanBody(text, startIndex, startIndex, 0)
      decreases |text| - index
    {
      SliceStep(text, startIndex, index);
      var before := depth;
      if text[index] == '{' {
        depth := depth + 1;
      }
      if text[index] == '}' {
        depth := depth - 1;
        if depth < 0 {
          assert ScanBody(text, startIndex, index, before) == Some(index);
          return Some(text[startIndex..index]);
        }
      }
      NeverNegativeAppend(text[startIndex..index], text[index]);
      index := index + 1;
    }
    assert ScanBody(text, startIndex, index, depth) == None;
    return None;
  }

  /** Conversely, a header followed by a balanced body and its `}` yields
      that body. */
  lemma FunctionTextOfBalanced(text: string, header: string, b: string)
    requires |header| > 0 && Find(text, header).Some?
    requires OccursAt(text, header + b + "}", Find(text, header).value)
    requires Balanced(b)
    ensures FunctionText(text, header) == Some(b)
  {
    var i := Find(text, header).value;
    var start := i + |header|;
    WrappedBody(text, header, b, i);
    ScanFindsClose(text, start, start, b);
    assert text[start..start] == [];
  }

  /** The body and the closing `}` of a header occurrence, read off the text. */
  lemma WrappedBody(text: string, header: string, b: string, i: nat)
    requires OccursAt(text, header + b + "}", i)
    ensures i + |header| + |b| < |text|
    ensures text[i + |header|..i + |header| + |b|] == b && text[i + |header| + |b|] == '}'
  {
    var w := header + b + "}";
    assert text[i..i + |w|] == w;
    forall k | 0 <= k < |b| ensures text[i + |header| + k] == b[k] {
      assert text[i + |header| + k] == w[|header| + k];
    }
    assert text[i + |header| + |b|] == w[|header| + |b|];
  }

  /** `setup\s*\([^\)]*\)\s*{` at `p`: the end of the header. */
  function SetupHeaderAt(s: string, p: nat): (r: Option<nat>)
    ensures r.Some? ==> p + 8 <= r.value <= |s| && OccursAt(s, "setup", p) && s[r.value - 1] == '{'
  {
    if !OccursAt(s, "setup", p) then None
    else
      var a := p + 5 + SpaceRun(s, p + 5);
      if a >= |s| || s[a] != '(' then None
      else match NextChar(s, ')', a + 1)
        case None => None
        case Some(c) =>
          var b := c + 1 + SpaceRun(s, c + 1);
          if b < |s| && s[b] == '{' then Some(b + 1) else None
  }

  /** The first header at or after `p`: where it starts and ends. */
  function SetupHeaderFrom(s: string, p: nat): (r: Option<(nat, nat)>)
    ensures r.Some? ==> p <= r.value.0 && SetupHeaderAt(s, r.value.0) == Some(r.value.1)
    decreases |s| - p
  {
    if p >= |s| then None
    else match SetupHeaderAt(s, p)
      case Some(e) => Some((p, e))
      case None => SetupHeaderFrom(s, p + 1)
  }

  /** The search skips only places where no header starts. */
  lemma {:induction false} SetupHeaderFromFirst(s: string, p: nat)
    requires SetupHeaderFrom(s, p).Some?
    ensures forall q :: p <= q < SetupHeaderFrom(s, p).value.0 ==> SetupHeaderAt(s, q).None?
    decreases |s| - p
  {
    var first := SetupHeaderFrom(s, p).value.0;
    if first != p {
      assert SetupHeaderFrom(s, p) == SetupHeaderFrom(s, p + 1);
      SetupHeaderFromFirst(s, p + 1);
      forall q | p <= q < first ensures SetupHeaderAt(s, q).None? {
        if q == p {
          assert SetupHeaderAt(s, p).None?;
        }
      }
    }
  }

  /** The search finds nothing exactly when no header starts from `p` on. */
  lemma {:induction false} SetupHeaderFromNone(s: string, p: nat)
    ensures SetupHeaderFrom(s, p).None? <==> forall q :: p <= q ==> SetupHeaderAt(s, q).None?
    decreases |s| - p
  {
    if p >= |s| {
      forall q | p <= q ensures SetupHeaderAt(s, q).None? {
        assert !OccursAt(s, "setup", q);
      }
    } else if SetupHeaderAt(s, p).None? {
      assert SetupHeaderFrom(s, p) == SetupHeaderFrom(s, p + 1);
      SetupHeaderFromNone(s, p + 1);
      if forall q :: p + 1 <= q ==> SetupHeaderAt(s, q).None? {
        forall q | p <= q ensures SetupHeaderAt(s, q).None? {
          if q == p {
            assert SetupHeaderAt(s, p).None?;
          }
        }
      }
    }
  }

  /** `setupFunc[0]`, the first header the global match finds. */
  function SetupHeader(s: string): (r: Option<string>)
    ensures r.Some? ==> |r.value| >= 8
  {
    match SetupHeaderFrom(s, 0)
    case None => None
    case Some((p, e)) => Some(s[p..e])
  }

  /** There is no header exactly when no place starts one. */
  lemma SetupHeaderNone(s: string)
    ensures SetupHeader(s).None? <==> forall q :: 0 <= q ==> SetupHeaderAt(s, q).None?
  {
    SetupHeaderFromNone(s, 0);
  }

  /** The header found is the leftmost match: `setup`, up to its `{`. */
  lemma SetupHeaderShape(s: string)
    requires SetupHeader(s).Some?
    ensures var h := SetupHeader(s).value;
      h[..5] == "setup" && h[|h| - 1] == '{'
    ensures exists p :: FirstHeaderAt(s, SetupHeader(s).value, p)
  {
    var (p, e) := SetupHeaderFrom(s, 0).value;
    assert SetupHeader(s) == Some(s[p..e]);
    HeaderAtShape(s, p, e);
    FirstHeaderFound(s, p, e);
  }

  lemma FirstHeaderFound(s: string, p: nat, e: nat)
    requires SetupHeaderFrom(s, 0) == Some((p, e))
    ensures FirstHeaderAt(s, s[p..e], p)
  {
    HeaderAtShape(s, p, e);
    SetupHeaderFromFirst(s, 0);
  }

  /** `h` is the header found at `p`, and no header starts before `p`. */
  ghost predicate FirstHeaderAt(s: string, h: string, p: nat) {
    && OccursAt(s, h, p) && SetupHeaderAt(s, p) == Some(p + |h|)
    && forall q :: 0 <= q < p ==> SetupHeaderAt(s, q).None?
  }

  lemma HeaderAtShape(s: string, p: nat, e: nat)
    requires SetupHeaderAt(s, p) == Some(e)
    ensures s[p..e][..5] == "setup" && s[p..e][|s[p..e]| - 1] == '{' && OccursAt(s, s[p..e], p)
  {
    assert s[p..e][..5] == s[p..p + 5];
  }

  /** The text `findFunctionText` gives for the first setup header: none
      without a header, and none when the header's body never closes (the
      source's `undefined`). */
  function SetupText(body: string): (r: Option<string>)
    ensures SetupHeader(body).None? ==> r.None?
    ensures SetupHeader(body).Some? ==> r == FunctionText(body, SetupHeader(body).value)
  {
    match SetupHeader(body)
    case None => None
    case Some(h) => FunctionText(body, h)
  }

  /** The setup rewrite: when the setup body holds Chinese text, the lookup
      `accessor` is put in front of it and `this.` is dropped from it, so that
      its texts call the lookup directly. Without a setup text `result` is left
      as it is: `chineseRegex.test(undefined)` tests the text "undefined",
      which holds no Chinese. */
  function RewriteSetup(result: string, body: string, accessor: string): (r: string)
    ensures SetupText(body).None? ==> r == result
    ensures SetupText(body).Some? && !ChineseMatch(SetupText(body).value) ==> r == result
    ensures SetupText(body).Some? && ChineseMatch(SetupText(body).value) ==>
      r == ReplaceFirst(result, SetupText(body).value, accessor + RemoveAll(SetupText(body).value, "this."))
  {
    match SetupText(body)
    case Some(t) =>
      if ChineseMatch(t) then ReplaceFirst(result, t, accessor + RemoveAll(t, "this."))
      else result
    case None => result
  }

  // ---------------------------------------------------------------------------
  // insertTransMethod and insertComposableTransMethod

  /** `insertTransMethod` with the generated texts as parameters: `insert` is
      the messages part (`InsertString`), `accessor` the composable lookup and
      `messageProp` the options-API lookup method. */
  function InsertTransMethod(s: string, insert: string, accessor: string, messageProp: string): (r: string)
    ensures MatchScript(s).None? ==> r == s + "<script setup>" + insert + accessor + "</script>"
    ensures MatchScript(s).Some? && IsComposable(s) ==>
      var m := MatchScript(s).value;
      r == m.head + insert + accessor + m.body + m.tail
    ensures MatchScript(s).Some? && !IsComposable(s) && MatchDefaultObject(MatchScript(s).value.body).None? ==>
      r == s
  {
    match MatchScript(s)
    case None => s + "<script setup>" + insert + accessor + "</script>"
    case Some(m) =>
      if IsComposable(s) then ScriptHeadInsert(s, m, insert, accessor)
      else
        match MatchDefaultObject(m.body)
        case None => s
        case Some(d) =>
          var result := ReplaceFirst(s, d.whole, ExportReplacement(insert, d.objectText, messageProp));
          RewriteSetup(result, m.body, accessor)
  }

  /** Replacing the opening tag with itself and two texts puts them right
      after the tag. */
  function ScriptHeadInsert(s: string, m: ScriptMatch, insert: string, accessor: string): (r: string)
    requires m.head + m.body + m.tail == s
    ensures r == m.head + insert + accessor + m.body + m.tail
  {
    var extra := insert + accessor;
    ReplaceFirstPrefix(m.head, m.body + m.tail, m.head + extra);
    assert m.head + (m.body + m.tail) == s;
    assert m.head + extra + (m.body + m.tail) == m.head + insert + accessor + m.body + m.tail;
    ReplaceFirst(s, m.head, m.head + extra)
  }

  /** `insertComposableTransMethod`, used for `.js` files: the messages part
      and the composable lookup go in front of the untouched source. */
  function InsertComposableTransMethod(insert: string, accessor: string, s: string): (r: string)
    ensures |r| >= |s| && r[|r| - |s|..] == s
    ensures |r| >= |insert| && r[..|insert|] == insert
    ensures OccursAt(insert, DisableMarker, 5) ==> OccursAt(r, DisableMarker, 5)
  {
    SuffixKept(insert + accessor, s);
    assert (insert + accessor + s)[..|insert|] == insert;
    assert OccursAt(insert, DisableMarker, 5) ==> OccursAt(insert + accessor + s, DisableMarker, 5) by {
      if OccursAt(insert, DisableMarker, 5) {
        OccursPrefix(insert, accessor, DisableMarker, 5);
        OccursPrefix(insert + accessor, s, DisableMarker, 5);
      }
    }
    insert + accessor + s
  }

  /** The exported object is found inside the script body, so its
      replacement always takes place. */
  lemma ExportInSource(s: string, m: ScriptMatch, d: DefaultExport)
    requires MatchScript(s) == Some(m) && MatchDefaultObject(m.body) == Some(d)
    ensures Contains(s, d.whole)
  {
    OccursShift(m.head, m.body, m.tail, d.whole, d.index);
  }

  /** When `insert` carries the disable marker and no setup body is rewritten,
      the result carries it exactly when the file was changed or already
      carried it: the only source left untouched is an options-API script
      without `export default`. */
  lemma InsertTransMethodMarks(s: string, insert: string, accessor: string, messageProp: string)
    requires Contains(insert, DisableMarker)
    requires MatchScript(s).Some? && !IsComposable(s) ==> SetupHeader(MatchScript(s).value.body).None?
    ensures Contains(InsertTransMethod(s, insert, accessor, messageProp), DisableMarker) <==>
      MatchScript(s).None? || IsComposable(s) || MatchDefaultObject(MatchScript(s).value.body).Some?
      || Contains(s, DisableMarker)
  {
    if MatchScript(s).None? || IsComposable(s) {
      InsertedMarked(s, insert, accessor, messageProp);
    } else if MatchDefaultObject(MatchScript(s).value.body).Some? {
      ExportRewriteMarked(s, insert, accessor, messageProp);
    }
  }

  /** Without a script, or with a composable one, the marker always goes in. */
  lemma InsertedMarked(s: string, insert: string, accessor: string, messageProp: string)
    requires Contains(insert, DisableMarker)
    requires MatchScript(s).None? || IsComposable(s)
    ensures Contains(InsertTransMethod(s, insert, accessor, messageProp), DisableMarker)
  {
    match MatchScript(s)
    case None =>
      MarkedAround(s + "<script setup>", insert, accessor + "</script>");
      assert s + "<script setup>" + insert + accessor + "</script>"
          == s + "<script setup>" + insert + (accessor + "</script>");
    case Some(m) =>
      MarkedAround(m.head, insert, accessor + m.body + m.tail);
      assert m.head + insert + accessor + m.body + m.tail == m.head + insert + (accessor + m.body + m.tail);
  }

  /** An options-API script with `export default` and no setup header gets
      the marker with the rewritten export. */
  lemma ExportRewriteMarked(s: string, insert: string, accessor: string, messageProp: string)
    requires Contains(insert, DisableMarker)
    requires MatchScript(s).Some? && !IsComposable(s)
    requires SetupHeader(MatchScript(s).value.body).None?
    requires MatchDefaultObject(MatchScript(s).value.body).Some?
    ensures Contains(InsertTransMethod(s, insert, accessor, messageProp), DisableMarker)
  {
    var m := MatchScript(s).value;
    InsertTransMethodExport(s, insert, accessor, messageProp);
    OptionsExportMarked(s, m, insert, messageProp);
  }

  /** An options-API script with `export default` and no setup header: the
      export is replaced by the messages part and the proxied export, and
      nothing else changes. */
  lemma InsertTransMethodExport(s: string, insert: string, accessor: string, messageProp: string)
    requires MatchScript(s).Some? && !IsComposable(s)
    requires SetupHeader(MatchScript(s).value.body).None?
    requires MatchDefaultObject(MatchScript(s).value.body).Some?
    ensures var d := MatchDefaultObject(MatchScript(s).value.body).value;
      InsertTransMethod(s, insert, accessor, messageProp)
        == ReplaceFirst(s, d.whole, ExportReplacement(insert, d.objectText, messageProp))
  {
    var m := MatchScript(s).value;
    var d := MatchDefaultObject(m.body).value;
    var result := ReplaceFirst(s, d.whole, ExportReplacement(insert, d.objectText, messageProp));
    assert InsertTransMethod(s, insert, accessor, messageProp) == RewriteSetup(result, m.body, accessor);
    assert RewriteSetup(result, m.body, accessor) == result;
  }

  /** Text holding the marker keeps it whatever is put around it. */
  lemma MarkedAround(a: string, insert: string, b: string)
    requires Contains(insert, DisableMarker)
    ensures Contains(a + insert + b, DisableMarker)
  {
    ContainsSuffix(a, insert, DisableMarker);
    ContainsPrefix(a + insert, b, DisableMarker);
  }

  lemma OptionsExportMarked(s: string, m: ScriptMatch, insert: string, messageProp: string)
    requires MatchScript(s) == Some(m) && MatchDefaultObject(m.body).Some?
    requires Contains(insert, DisableMarker)
    ensures var d := MatchDefaultObject(m.body).value;
      Contains(ReplaceFirst(s, d.whole, ExportReplacement(insert, d.objectText, messageProp)), DisableMarker)
  {
    var d := MatchDefaultObject(m.body).value;
    ReplacementMarked(insert, d.objectText, messageProp);
    ExportInSource(s, m, d);
    ReplaceFirstContains(s, d.whole, ExportReplacement(insert, d.objectText, messageProp), DisableMarker);
  }

  lemma ReplacementMarked(insert: string, objectText: string, messageProp: string)
    requires Contains(insert, DisableMarker)
    ensures Contains(ExportReplacement(insert, objectText, messageProp), DisableMarker)
  {
    ContainsPrefix(insert, ProxiedExport(objectText, messageProp), DisableMarker);
  }
}
