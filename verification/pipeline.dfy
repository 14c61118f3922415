/** `processI18n`: one module's source in, the rewritten source out, together
    with the call it makes to synchronise the message catalog. The tokenizer,
    the markup parser, the hash, the stored catalog and the generated lookup
    code are parameters. */
module Pipeline {
  import opened Wrappers
  import opened Strings
  import opened Text
  import opened Patterns
  import opened Regions
  import opened Replacers
  import opened Inject
  import Catalogs

  // ---------------------------------------------------------------------------
  // Accessor name and catalog path

  predicate IsAsciiLetter(c: char) {
    ('a' <= c <= 'z') || ('A' <= c <= 'Z')
  }

  /** `s.replace(/[^a-zA-Z]/g, '')`. */
  function Letters(s: string): (r: string)
    ensures |r| <= |s|
    ensures forall i | 0 <= i < |r| :: IsAsciiLetter(r[i])
  {
    if s == [] then []
    else (if IsAsciiLetter(s[0]) then [s[0]] else []) + Letters(s[1..])
  }

  /** Only letters survive and none is lost: a text of letters only is its
      own result, one without letters gives the empty text, and the result
      is left alone by a second pass. */
  lemma LettersSpec(s: string)
    ensures (forall i | 0 <= i < |s| :: IsAsciiLetter(s[i])) ==> Letters(s) == s
    ensures Letters(s) == [] <==> forall i | 0 <= i < |s| :: !IsAsciiLetter(s[i])
    ensures Letters(Letters(s)) == Letters(s)
  {
    if forall i | 0 <= i < |s| :: IsAsciiLetter(s[i]) {
      LettersOfLetters(s);
    }
    LettersEmpty(s);
    LettersOfLetters(Letters(s));
  }

  lemma {:induction false} LettersEmpty(s: string)
    ensures Letters(s) == [] <==> forall i | 0 <= i < |s| :: !IsAsciiLetter(s[i])
  {
    if s != [] {
      LettersEmpty(s[1..]);
      assert forall i | 1 <= i < |s| :: s[1..][i - 1] == s[i];
      if IsAsciiLetter(s[0]) {
        assert Letters(s) == [s[0]] + Letters(s[1..]);
      } else {
        assert Letters(s) == Letters(s[1..]);
      }
    }
  }

  lemma {:induction false} LettersOfLetters(s: string)
    requires forall i | 0 <= i < |s| :: IsAsciiLetter(s[i])
    ensures Letters(s) == s
  {
    if s != [] {
      LettersOfLetters(s[1..]);
      assert [s[0]] + s[1..] == s;
    }
  }

  /** `'$V' + (filename.replace(/[^a-zA-Z]/g, '') || 'text')`: the lookup
      function's name, always a valid identifier. */
  function AccessorName(filename: string): (r: string)
    ensures |r| >= 3 && r[..2] == "$V"
    ensures forall i | 2 <= i < |r| :: IsAsciiLetter(r[i])
    ensures Letters(filename) != [] ==> r[2..] == Letters(filename)
    ensures Letters(filename) == [] ==> r == "$Vtext"
  {
    var letters := Letters(filename);
    var tail := if letters == [] then "text" else letters;
    assert ("$V" + tail)[2..] == tail;
    "$V" + tail
  }

  /** ECMAScript line terminators, which `.` does not match. */
  predicate IsLineTerminator(c: char) {
    c == '\n' || c == '\r' || c == '\U{2028}' || c == '\U{2029}'
  }

  /** Where the last line of `s` starts. */
  function LineStart(s: string): (r: nat)
    ensures r <= |s|
    ensures forall i | r <= i < |s| :: !IsLineTerminator(s[i])
    ensures r == 0 || IsLineTerminator(s[r - 1])
  {
    if s == [] then 0
    else if IsLineTerminator(s[|s| - 1]) then |s|
    else LineStart(s[..|s| - 1])
  }

  /** Where the catalog goes, and whether the module is plain JavaScript. */
  datatype Target = Target(jsonPath: string, isJs: bool)

  predicate EndsWith(s: string, suffix: string) {
    |suffix| <= |s| && s[|s| - |suffix|..] == suffix
  }

  /** `id.match(/(.*)((\.vue$)|(\.js$))/)`: the match starts on the last
      line, and group 1 is everything before the extension. Any other id
      leaves `filePath` null, and reading `filePath[1]` throws. */
  function CatalogTarget(id: string): (r: Result<Target>)
    ensures r.Ok? <==> EndsWith(id, ".vue") || EndsWith(id, ".js")
    ensures r.Ok? ==> (r.value.isJs <==> EndsWith(id, ".js"))
    ensures r.Err? ==> r.error == UnsupportedId
  {
    var ext := if EndsWith(id, ".vue") then ".vue" else ".js";
    assert EndsWith(id, ".vue") ==> !EndsWith(id, ".js") by {
      if EndsWith(id, ".vue") { assert id[|id| - 1] == 'e'; }
    }
    if !EndsWith(id, ext) then Err(UnsupportedId)
    else
      var stem := id[..|id| - |ext|];
      Ok(Target(stem[LineStart(stem)..] + ".messages.json", ext == ".js"))
  }

  /** On a one-line id the catalog sits next to the module: the extension is
      swapped for `.messages.json`. */
  lemma CatalogTargetOneLine(id: string, ext: string)
    requires ext == ".vue" || ext == ".js"
    requires EndsWith(id, ext)
    requires forall i | 0 <= i < |id| :: !IsLineTerminator(id[i])
    ensures CatalogTarget(id) == Ok(Target(id[..|id| - |ext|] + ".messages.json", ext == ".js"))
  {
    var stem := id[..|id| - |ext|];
    assert forall i | 0 <= i < |stem| :: stem[i] == id[i];
    assert LineStart(stem) == 0;
    if ext == ".js" {
      assert !EndsWith(id, ".vue") by {
        assert id[|id| - 1] == 's';
      }
    }
  }

  // ---------------------------------------------------------------------------
  // Regions

  /** `replaceParts`: the pieces the source is cut into, where the script
      and the template sit among them, and the texts replacers are
      generated from. */
  datatype Layout = Layout(parts: seq<string>, scriptIndex: Option<nat>, templateIndex: Option<nat>,
                             script: string, template: Option<string>)

  /** The script and template positions lie among the parts. */
  predicate Fits(rg: Layout) {
    && (rg.scriptIndex.Some? ==> rg.scriptIndex.value < |rg.parts|)
    && (rg.templateIndex.Some? ==> rg.templateIndex.value < |rg.parts|)
  }

  /** The split of a `.vue` source. With a non-empty script body the parts
      are the three groups of the script match, and the template is looked
      for before and after the script, the part after it winning. Otherwise
      the whole source is the one part, when it holds a template. */
  function SplitVue(s: string): (r: Layout)
    ensures Fits(r)
    ensures r.template.Some? <==> r.templateIndex.Some?
    ensures r.parts != [] ==> Concat(r.parts) == s
  {
    var ms := MatchScript(s);
    if ms.Some? && ms.value.body != [] then
      var m := ms.value;
      var start := MatchTemplate(m.head);
      var end := MatchTemplate(m.tail);
      ConcatThree(m.head, m.body, m.tail);
      Layout([m.head, m.body, m.tail], Some(1),
              if end.Some? then Some(2) else if start.Some? then Some(0) else None,
              m.body, if end.Some? then end else start)
    else
      match MatchTemplate(s)
      case Some(t) =>
        assert Concat([s]) == s + [];
        Layout([s], None, Some(0), [], Some(t))
      case None => Layout([], None, None, [], None)
  }

  lemma ConcatThree(a: string, b: string, c: string)
    ensures Concat([a, b, c]) == a + b + c
  {
    assert [a, b, c][1..] == [b, c];
    assert [b, c][1..] == [c];
    assert [c][1..] == [];
    assert Concat([c]) == c + [] == c;
  }

  /** The regions found: the script body when the script match has one, and
      a template in the part after the script, else the part before it,
      else (with no script) the whole source. */
  lemma SplitVueRegions(s: string)
    ensures var r := SplitVue(s);
      && (r.script != [] <==> MatchScript(s).Some? && MatchScript(s).value.body != [])
      && (r.script != [] ==>
            (r.script == MatchScript(s).value.body && r.scriptIndex == Some(1)
             && r.parts == [MatchScript(s).value.head, r.script, MatchScript(s).value.tail]))
      && (r.script != [] && MatchTemplate(MatchScript(s).value.tail).Some? ==>
            r.templateIndex == Some(2) && r.template == MatchTemplate(MatchScript(s).value.tail))
      && (r.script != [] && MatchTemplate(MatchScript(s).value.tail).None? ==>
            r.template == MatchTemplate(MatchScript(s).value.head))
      && (r.script == [] ==>
            (r.template == MatchTemplate(s)
             && (r.template.Some? ==> r.parts == [s] && r.templateIndex == Some(0))))
  {
  }

  // ---------------------------------------------------------------------------
  // Replacer dispatch

  /** `if (replacer.oldText)`: a rewrite whose pattern is the empty text is
      falsy and skipped; the regular expressions are objects, always truthy. */
  predicate Applies(r: Replacer) {
    r.rewrite.Some? && !(r.rewrite.value.pattern.Literal? && r.rewrite.value.pattern.text == [])
  }

  /** One replacer applied to its region (literal insertion of `newText`). */
  function Step(parts: seq<string>, scriptIndex: nat, templateIndex: nat, r: Replacer): (q: seq<string>)
    requires scriptIndex < |parts| && templateIndex < |parts|
    ensures |q| == |parts|
  {
    if !Applies(r) then parts
    else
      var i := if r.isScript then scriptIndex else templateIndex;
      parts[i := ApplyRewrite(parts[i], r.rewrite.value)]
  }

  /** `replacers.forEach(...)`: every replacer, in order, on its region. */
  function Dispatch(parts: seq<string>, scriptIndex: nat, templateIndex: nat, rs: seq<Replacer>): (q: seq<string>)
    requires scriptIndex < |parts| && templateIndex < |parts|
    ensures |q| == |parts|
    decreases |rs|
  {
    if rs == [] then parts
    else Dispatch(Step(parts, scriptIndex, templateIndex, rs[0]), scriptIndex, templateIndex, rs[1..])
  }

  /** The rewrites that apply to one kind of region, in order. */
  function RewritesFor(rs: seq<Replacer>, script: bool): seq<Rewrite> {
    if rs == [] then []
    else
      (if Applies(rs[0]) && rs[0].isScript == script then [rs[0].rewrite.value] else [])
      + RewritesFor(rs[1..], script)
  }

  /** The rewrites that apply at all, in order. */
  function AllRewrites(rs: seq<Replacer>): seq<Rewrite> {
    if rs == [] then []
    else (if Applies(rs[0]) then [rs[0].rewrite.value] else []) + AllRewrites(rs[1..])
  }

  /** Rewrites applied one after the other. */
  function ApplyAll(s: string, rws: seq<Rewrite>): string
    decreases |rws|
  {
    if rws == [] then s else ApplyAll(ApplyRewrite(s, rws[0]), rws[1..])
  }

  /** With the script and the template in different parts, each is rewritten
      by exactly its own replacers, in order, and every other part is left
      as it was. */
  lemma {:induction false} DispatchRegions(parts: seq<string>, scriptIndex: nat, templateIndex: nat, rs: seq<Replacer>)
    requires scriptIndex < |parts| && templateIndex < |parts| && scriptIndex != templateIndex
    ensures Dispatch(parts, scriptIndex, templateIndex, rs)[scriptIndex]
         == ApplyAll(parts[scriptIndex], RewritesFor(rs, true))
    ensures Dispatch(parts, scriptIndex, templateIndex, rs)[templateIndex]
         == ApplyAll(parts[templateIndex], RewritesFor(rs, false))
    ensures forall i | 0 <= i < |parts| && i != scriptIndex && i != templateIndex ::
      Dispatch(parts, scriptIndex, templateIndex, rs)[i] == parts[i]
    decreases |rs|
  {
    if rs != [] {
      var next := Step(parts, scriptIndex, templateIndex, rs[0]);
      DispatchRegions(next, scriptIndex, templateIndex, rs[1..]);
      if Applies(rs[0]) {
        var rw := rs[0].rewrite.value;
        if rs[0].isScript {
          assert RewritesFor(rs, true) == [rw] + RewritesFor(rs[1..], true);
          assert RewritesFor(rs, false) == RewritesFor(rs[1..], false);
          assert ([rw] + RewritesFor(rs[1..], true))[1..] == RewritesFor(rs[1..], true);
        } else {
          assert RewritesFor(rs, false) == [rw] + RewritesFor(rs[1..], false);
          assert RewritesFor(rs, true) == RewritesFor(rs[1..], true);
          assert ([rw] + RewritesFor(rs[1..], false))[1..] == RewritesFor(rs[1..], false);
        }
      } else {
        assert RewritesFor(rs, true) == RewritesFor(rs[1..], true);
        assert RewritesFor(rs, false) == RewritesFor(rs[1..], false);
      }
    }
  }

  /** With a single region every applicable replacer rewrites it, in order. */
  lemma {:induction false} DispatchOne(parts: seq<string>, i: nat, rs: seq<Replacer>)
    requires i < |parts|
    ensures Dispatch(parts, i, i, rs)[i] == ApplyAll(parts[i], AllRewrites(rs))
    ensures forall j | 0 <= j < |parts| && j != i :: Dispatch(parts, i, i, rs)[j] == parts[j]
    decreases |rs|
  {
    if rs != [] {
      DispatchOne(Step(parts, i, i, rs[0]), i, rs[1..]);
      if Applies(rs[0]) {
        var rw := rs[0].rewrite.value;
        assert AllRewrites(rs) == [rw] + AllRewrites(rs[1..]);
        assert ([rw] + AllRewrites(rs[1..]))[1..] == AllRewrites(rs[1..]);
      } else {
        assert AllRewrites(rs) == AllRewrites(rs[1..]);
      }
    }
  }

  // ---------------------------------------------------------------------------
  // Catalog data

  /** `replacer.hash` is truthy: the replacer carries a non-empty key. */
  predicate HasKey(r: Replacer) {
    r.entry.Some? && r.entry.value.hash != []
  }

  /** key → origin over the replacers, a later replacer winning on the same key. */
  function Entries(rs: seq<Replacer>): (m: map<string, string>)
    ensures forall i | 0 <= i < |rs| && HasKey(rs[i]) :: rs[i].entry.value.hash in m
  {
    if rs == [] then map[]
    else
      var n := |rs| - 1;
      var before := Entries(rs[..n]);
      assert forall i | 0 <= i < n :: rs[..n][i] == rs[i];
      if HasKey(rs[n]) then before[rs[n].entry.value.hash := rs[n].entry.value.origin] else before
  }

  /** Every key comes from some replacer, and maps to the origin of the last
      replacer carrying it. */
  lemma {:induction false} EntriesSpec(rs: seq<Replacer>)
    ensures forall k | k in Entries(rs) :: exists i | 0 <= i < |rs| :: HasKey(rs[i]) && rs[i].entry.value.hash == k
    ensures forall i | 0 <= i < |rs| && HasKey(rs[i]) ::
      (forall j | i < j < |rs| :: !(HasKey(rs[j]) && rs[j].entry.value.hash == rs[i].entry.value.hash))
      ==> Entries(rs)[rs[i].entry.value.hash] == rs[i].entry.value.origin
  {
    if rs != [] {
      var n := |rs| - 1;
      var pre := rs[..n];
      EntriesSpec(pre);
      assert forall i | 0 <= i < n :: pre[i] == rs[i];
      forall k | k in Entries(rs) ensures exists i | 0 <= i < |rs| :: HasKey(rs[i]) && rs[i].entry.value.hash == k {
        if k in Entries(pre) {
          var i :| 0 <= i < |pre| && HasKey(pre[i]) && pre[i].entry.value.hash == k;
          assert rs[i] == pre[i];
        }
      }
    }
  }

  /** `data`: every language gets the same keys and origins. */
  function CatalogData(languages: seq<string>, rs: seq<Replacer>): (c: Catalogs.Catalog)
    ensures c.Keys == set l | l in languages
    ensures forall l | l in c :: c[l] == Entries(rs)
  {
    map l | l in languages :: Entries(rs)
  }

  /** `languages[0]`; the property name "undefined" for an empty list. */
  function DefaultLanguage(languages: seq<string>): string {
    if languages == [] then "undefined" else languages[0]
  }

  // ---------------------------------------------------------------------------
  // processI18n

  /** The call made to `syncJsonFile` and its outcome. */
  datatype CatalogCall = CatalogCall(path: string, data: Catalogs.Catalog, defaultLang: string, outcome: Catalogs.Sync)

  /** The rewritten source, and the catalog call when one is made. */
  datatype Output = Output(code: string, catalog: Option<CatalogCall>)

  /** The collaborators `processI18n` calls and this model does not contain. */
  datatype Environment = Environment(
    tokenize: string -> seq<Token>,                     // esprima's tokenizer
    parseMarkup: string -> seq<MarkupEvent>,            // htmlparser2's events
    md5: string -> Md5Hex,                              // the hash
    stored: Option<Catalogs.Catalog>,                   // the catalog file on disk
    lookups: (string, string) -> Lookups)               // the generated lookup code

  /** The replacers of a `.vue` source: those of the script body (with
      `this.` before the accessor unless the script is a setup script), then
      those of the template. */
  function VueReplacers(rg: Layout, composable: bool, matches: string -> bool, tm: string,
                        env: Environment): (r: Result<seq<Replacer>>)
    ensures r.Ok? && rg.script == [] && rg.template.None? ==> r.value == []
  {
    var fromScript :- if rg.script != [] then
        ScriptReplacers(rg.script, matches, (if composable then "" else "this.") + tm, env.md5, env.tokenize)
      else Ok([]);
    var fromTemplate :- match rg.template
      case Some(t) => TemplateReplacers(t, matches, tm, env.md5, env.parseMarkup)
      case None => Ok([]);
    Ok(fromScript + fromTemplate)
  }

  /** The regions and replacers of a module. */
  function Prepare(s: string, isJs: bool, matches: string -> bool, tm: string, env: Environment): (r: Result<(Layout, seq<Replacer>)>)
    ensures r.Ok? ==> Fits(r.value.0)
    ensures r.Ok? && r.value.1 != [] ==> r.value.0.parts != []
    ensures r.Ok? && isJs ==> r.value.0.parts == [s]
  {
    if isJs then
      var rs :- ScriptReplacers(s, matches, tm, env.md5, env.tokenize);
      Ok((Layout([s], Some(0), None, s, None), rs))
    else
      var rg := SplitVue(s);
      var rs :- VueReplacers(rg, IsComposable(s), matches, tm, env);
      Ok((rg, rs))
  }

  /** The parts once every replacer has rewritten its region. */
  function Rewritten(rg: Layout, rs: seq<Replacer>): (parts: seq<string>)
    requires Fits(rg) && rg.parts != []
    ensures |parts| == |rg.parts|
  {
    var si := if rg.scriptIndex.Some? then rg.scriptIndex.value else 0;
    var ti := if rg.templateIndex.Some? then rg.templateIndex.value else 0;
    Dispatch(rg.parts, si, ti, rs)
  }

  /** `syncJsonFile(data, jsonPath, languages[0])` with the data built from
      the replacers. */
  function SyncCall(languages: seq<string>, rs: seq<Replacer>, path: string, env: Environment): (c: CatalogCall)
    ensures c.path == path && c.defaultLang == DefaultLanguage(languages)
  {
    var data := CatalogData(languages, rs);
    var defaultLang := DefaultLanguage(languages);
    CatalogCall(path, data, defaultLang, Catalogs.SyncJsonFile(data, env.stored, defaultLang))
  }

  /** The messages import and the lookup added to the rewritten source:
      `insertComposableTransMethod` for JavaScript, `insertTransMethod`
      otherwise. */
  function Injected(filename: string, tm: string, defaultLang: string, isJs: bool, source: string,
                    env: Environment): (code: string)
    ensures isJs ==> |code| >= |source| && code[|code| - |source|..] == source
  {
    var insert := InsertString(filename, tm, None);
    var lk := env.lookups(defaultLang, tm);
    if isJs then InsertComposableTransMethod(insert, lk.composable, source)
    else InsertTransMethod(source, insert, lk.composable, lk.options)
  }

  /** `processI18n(src, id, languages, matchRegex, updateJson)`. */
  function ProcessI18n(src: string, id: string, languages: seq<string>, matches: string -> bool,
                       updateJson: bool, env: Environment): (r: Result<Output>)
    ensures r.Ok? && r.value.catalog.Some? ==> updateJson
  {
    var filename := GetFileName(id);
    var tm := AccessorName(filename);
    var s := RemoveComments(src);
    var target :- CatalogTarget(id);
    var prepared :- Prepare(s, target.isJs, matches, tm, env);
    var (rg, rs) := prepared;
    if rs == [] then Ok(Output(s, None))
    else
      var code := Injected(filename, tm, DefaultLanguage(languages), target.isJs, Concat(Rewritten(rg, rs)), env);
      Ok(Output(code, if updateJson then Some(SyncCall(languages, rs, target.jsonPath, env)) else None))
  }

  // ---------------------------------------------------------------------------
  // What processI18n promises

  /** The regions and replacers `processI18n` works with. */
  function Found(src: string, id: string, matches: string -> bool, env: Environment): Result<(Layout, seq<Replacer>)>
    requires CatalogTarget(id).Ok?
  {
    Prepare(RemoveComments(src), CatalogTarget(id).value.isJs, matches, AccessorName(GetFileName(id)), env)
  }

  /** An id ending neither in `.vue` nor in `.js` is refused. */
  lemma ProcessUnsupported(src: string, id: string, languages: seq<string>, matches: string -> bool,
                           updateJson: bool, env: Environment)
    requires !EndsWith(id, ".vue") && !EndsWith(id, ".js")
    ensures ProcessI18n(src, id, languages, matches, updateJson, env) == Err(UnsupportedId)
  {
  }

  /** Without replacers the comment-stripped source comes back: no catalog
      call and no injected code. */
  lemma ProcessUnchanged(src: string, id: string, languages: seq<string>, matches: string -> bool,
                         updateJson: bool, env: Environment)
    requires CatalogTarget(id).Ok? && Found(src, id, matches, env).Ok?
    requires Found(src, id, matches, env).value.1 == []
    ensures ProcessI18n(src, id, languages, matches, updateJson, env) == Ok(Output(RemoveComments(src), None))
  {
  }

  /** A JavaScript module none of whose tokens matches comes back with only
      its markup comments removed. */
  lemma ProcessJsNoMatch(src: string, id: string, languages: seq<string>, matches: string -> bool,
                         updateJson: bool, env: Environment)
    requires EndsWith(id, ".js")
    requires NothingMatches(env.tokenize(RemoveComments(src)), matches)
    ensures ProcessI18n(src, id, languages, matches, updateJson, env) == Ok(Output(RemoveComments(src), None))
  {
    var s := RemoveComments(src);
    var tm := AccessorName(GetFileName(id));
    ScriptReplacersComplete(env.tokenize(s), matches, tm, env.md5, {});
    assert ScriptReplacers(s, matches, tm, env.md5, env.tokenize) == Ok([]);
    ProcessUnchanged(src, id, languages, matches, updateJson, env);
  }

  /** The catalog is synchronised exactly when there are replacers and
      `updateJson` is set; the call gets the catalog path, `languages[0]`,
      and for every language the same keys, each with the origin of the last
      replacer carrying it. */
  lemma ProcessCatalog(src: string, id: string, languages: seq<string>, matches: string -> bool,
                       updateJson: bool, env: Environment)
    requires CatalogTarget(id).Ok? && Found(src, id, matches, env).Ok?
    ensures var rs := Found(src, id, matches, env).value.1;
      var r := ProcessI18n(src, id, languages, matches, updateJson, env);
      && r.Ok?
      && (r.value.catalog.Some? <==> updateJson && rs != [])
      && (r.value.catalog.Some? ==>
            var c := r.value.catalog.value;
            && c.path == CatalogTarget(id).value.jsonPath
            && c.defaultLang == DefaultLanguage(languages)
            && c.data.Keys == (set l | l in languages)
            && (forall l | l in c.data :: c.data[l] == Entries(rs))
            && c.outcome == Catalogs.SyncJsonFile(c.data, env.stored, c.defaultLang))
  {
  }

  /** A JavaScript module with replacers: the messages import (led by the
      disable marker) and the composable lookup go in front of the source
      rewritten by every replacer in order. */
  lemma ProcessJs(src: string, id: string, languages: seq<string>, matches: string -> bool,
                  updateJson: bool, env: Environment)
    requires EndsWith(id, ".js")
    requires Found(src, id, matches, env).Ok? && Found(src, id, matches, env).value.1 != []
    ensures var rs := Found(src, id, matches, env).value.1;
      var filename := GetFileName(id);
      var tm := AccessorName(filename);
      var insert := InsertString(filename, tm, None);
      var code := ProcessI18n(src, id, languages, matches, updateJson, env).value.code;
      && code == insert + env.lookups(DefaultLanguage(languages), tm).composable
                 + ApplyAll(RemoveComments(src), AllRewrites(rs))
      && OccursAt(code, DisableMarker, 5)
  {
    var s := RemoveComments(src);
    var rs := Found(src, id, matches, env).value.1;
    assert CatalogTarget(id).value.isJs;
    assert Found(src, id, matches, env).value.0 == Layout([s], Some(0), None, s, None);
    RewrittenJs(s, rs);
    var filename := GetFileName(id);
    var tm := AccessorName(filename);
    InjectedJs(filename, tm, DefaultLanguage(languages), ApplyAll(s, AllRewrites(rs)), env);
  }

  lemma RewrittenJs(s: string, rs: seq<Replacer>)
    ensures Concat(Rewritten(Layout([s], Some(0), None, s, None), rs)) == ApplyAll(s, AllRewrites(rs))
  {
    DispatchOne([s], 0, rs);
    var parts := Rewritten(Layout([s], Some(0), None, s, None), rs);
    assert parts == [ApplyAll(s, AllRewrites(rs))];
    assert Concat(parts) == ApplyAll(s, AllRewrites(rs)) + [];
  }

  lemma InjectedJs(filename: string, tm: string, defaultLang: string, source: string, env: Environment)
    ensures var insert := InsertString(filename, tm, None);
      var code := Injected(filename, tm, defaultLang, true, source, env);
      code == insert + env.lookups(defaultLang, tm).composable + source && OccursAt(code, DisableMarker, 5)
  {
  }

  /** A `.vue` module whose template follows its script: the text before the
      script is kept, the script body is rewritten by the script replacers
      and the rest by the template replacers, each in order. */
  lemma RewrittenVue(s: string, rs: seq<Replacer>)
    requires SplitVue(s).script != []
    requires MatchTemplate(MatchScript(s).value.tail).Some?
    ensures var m := MatchScript(s).value;
      Rewritten(SplitVue(s), rs)
        == [m.head, ApplyAll(m.body, RewritesFor(rs, true)), ApplyAll(m.tail, RewritesFor(rs, false))]
  {
    SplitVueRegions(s);
    var rg := SplitVue(s);
    DispatchRegions(rg.parts, 1, 2, rs);
  }
}
