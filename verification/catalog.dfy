/** The message catalogs of `utils.js`: the synchronisation of a freshly
    built catalog with the one already on disk (`syncJsonFile`), the key
    order the catalog file is written in (`sortObjectByKey`), and the
    positional table of `compressMessages` together with the reducer the
    generated code decodes it with. */
module Catalogs {
  import opened Wrappers

  /** language → text key → message. */
  type Catalog = map<string, map<string, string>>

  // ---------------------------------------------------------------------------
  // The order of `Array.prototype.sort` without a comparator

  /** `a` sorts before or equal to `b`: character by character, a proper
      prefix first. */
  predicate StrLe(a: string, b: string)
    decreases |a|
  {
    a == [] || (b != [] && (a[0] < b[0] || (a[0] == b[0] && StrLe(a[1..], b[1..]))))
  }

  lemma StrLeRefl(a: string)
    ensures StrLe(a, a)
  {
  }

  lemma StrLeTotal(a: string, b: string)
    ensures StrLe(a, b) || StrLe(b, a)
  {
  }

  lemma {:induction false} StrLeAntisym(a: string, b: string)
    requires StrLe(a, b) && StrLe(b, a)
    ensures a == b
    decreases |a|
  {
    if a != [] {
      StrLeAntisym(a[1..], b[1..]);
      assert a == [a[0]] + a[1..] && b == [b[0]] + b[1..];
    }
  }

  lemma {:induction false} StrLeTrans(a: string, b: string, c: string)
    requires StrLe(a, b) && StrLe(b, c)
    ensures StrLe(a, c)
    decreases |a|
  {
    if a != [] && a[0] == b[0] && b[0] == c[0] {
      StrLeTrans(a[1..], b[1..], c[1..]);
    }
  }

  /** `k` is the first of `ks` in sort order. */
  predicate IsLeast(k: string, ks: set<string>) {
    k in ks && forall x | x in ks :: StrLe(k, x)
  }

  lemma {:induction false} LeastExists(ks: set<string>)
    requires ks != {}
    ensures exists k :: IsLeast(k, ks)
  {
    var y :| y in ks;
    if ks - {y} == {} {
      StrLeRefl(y);
      assert ks == {y};
      assert IsLeast(y, ks);
    } else {
      LeastExists(ks - {y});
      var k :| IsLeast(k, ks - {y});
      StrLeTotal(y, k);
      if StrLe(y, k) {
        forall x | x in ks ensures StrLe(y, x) {
          if x == y { StrLeRefl(y); } else { StrLeTrans(y, k, x); }
        }
        assert IsLeast(y, ks);
      } else {
        forall x | x in ks ensures StrLe(k, x) {
          if x == y { } else { assert x in ks - {y}; }
        }
        assert IsLeast(k, ks);
      }
    }
  }

  lemma LeastUnique(ks: set<string>)
    ensures forall a, b | IsLeast(a, ks) && IsLeast(b, ks) :: a == b
  {
    forall a, b | IsLeast(a, ks) && IsLeast(b, ks) ensures a == b {
      StrLeAntisym(a, b);
    }
  }

  /** `Object.keys(o).sort()`: the keys in increasing order. */
  function SortedKeys(ks: set<string>): (r: seq<string>)
    ensures |r| == |ks|
  {
    if ks == {} then []
    else
      LeastExists(ks);
      LeastUnique(ks);
      var k :| IsLeast(k, ks);
      [k] + SortedKeys(ks - {k})
  }

  /** Strictly increasing, hence without repetition. */
  predicate Increasing(s: seq<string>) {
    forall i, j | 0 <= i < j < |s| :: StrLe(s[i], s[j]) && s[i] != s[j]
  }

  /** The sorted key list holds exactly the keys, in strictly increasing order. */
  lemma {:induction false} SortedKeysSpec(ks: set<string>)
    ensures forall x :: x in SortedKeys(ks) <==> x in ks
    ensures Increasing(SortedKeys(ks))
    decreases ks
  {
    if ks != {} {
      LeastExists(ks);
      LeastUnique(ks);
      var k :| IsLeast(k, ks);
      var rest := SortedKeys(ks - {k});
      assert SortedKeys(ks) == [k] + rest;
      SortedKeysSpec(ks - {k});
      var r := [k] + rest;
      forall i, j | 0 <= i < j < |r| ensures StrLe(r[i], r[j]) && r[i] != r[j] {
        if i == 0 {
          assert r[j] == rest[j - 1];
          assert r[j] in ks - {k};
        } else {
          assert r[i] == rest[i - 1] && r[j] == rest[j - 1];
        }
      }
    }
  }

  /** Two sorted key lists are equal exactly when the key sets are. */
  lemma SortedKeysEqual(a: set<string>, b: set<string>)
    ensures SortedKeys(a) == SortedKeys(b) <==> a == b
  {
    SortedKeysSpec(a);
    SortedKeysSpec(b);
    if SortedKeys(a) == SortedKeys(b) {
      forall x ensures x in a <==> x in b {
      }
    }
  }

  // ---------------------------------------------------------------------------
  // syncJsonFile

  /** `syncJsonFile`'s outcome: nothing written, or the catalog written. */
  datatype Sync = Skip | Write(result: Catalog)

  /** The two-level merge: a language only the old catalog has is kept; for
      the others the new key set is taken, a key the old catalog already
      has keeping its (possibly translated) old message. */
  function Merge(prev: Catalog, data: Catalog): (r: Catalog)
    ensures r.Keys == prev.Keys + data.Keys
  {
    map l | l in prev.Keys + data.Keys ::
      if l !in data then prev[l]
      else if l !in prev then data[l]
      else MergeLanguage(prev[l], data[l])
  }

  function MergeLanguage(prev: map<string, string>, data: map<string, string>): (r: map<string, string>)
    ensures r.Keys == data.Keys
  {
    map k | k in data :: if k in prev then prev[k] else data[k]
  }

  /** The merged catalog keeps old-only languages, takes the new key set of
      every new language, keeps old messages for surviving keys and takes
      the new message for new keys. */
  lemma MergeSpec(prev: Catalog, data: Catalog)
    ensures forall l | l in prev && l !in data :: Merge(prev, data)[l] == prev[l]
    ensures forall l | l in data :: Merge(prev, data)[l].Keys == data[l].Keys
    ensures forall l, k | l in data && l in prev && k in data[l] && k in prev[l] ::
      Merge(prev, data)[l][k] == prev[l][k]
    ensures forall l, k | l in data && k in data[l] && (l !in prev || k !in prev[l]) ::
      Merge(prev, data)[l][k] == data[l][k]
  {
  }

  /** `syncJsonFile(data, filePath, defaultLang)` given the parsed old
      catalog (`None` when the file is missing or does not parse). A catalog
      without the default language makes `Object.keys` throw, and the
      `catch` writes the new data as it is. */
  function SyncJsonFile(data: Catalog, prev: Option<Catalog>, defaultLang: string): (r: Sync)
    ensures r.Write? ==> data.Keys <= r.result.Keys
  {
    match prev
    case None => Write(data)
    case Some(o) =>
      if defaultLang !in o || defaultLang !in data then Write(data)
      else if SortedKeys(o[defaultLang].Keys) == SortedKeys(data[defaultLang].Keys)
              && SortedKeys(o.Keys) == SortedKeys(data.Keys)
      then Skip
      else Write(Merge(o, data))
  }

  /** Nothing is written exactly when the old catalog has the same languages
      and the same default-language keys; the other languages' keys are not
      compared. */
  lemma SyncSkipIff(data: Catalog, prev: Option<Catalog>, defaultLang: string)
    ensures SyncJsonFile(data, prev, defaultLang).Skip? <==>
      prev.Some? && defaultLang in prev.value && defaultLang in data
      && prev.value[defaultLang].Keys == data[defaultLang].Keys
      && prev.value.Keys == data.Keys
  {
    if prev.Some? && defaultLang in prev.value && defaultLang in data {
      SortedKeysEqual(prev.value[defaultLang].Keys, data[defaultLang].Keys);
      SortedKeysEqual(prev.value.Keys, data.Keys);
    }
  }

  /** Without a usable old catalog the new data is written unchanged. */
  lemma SyncFresh(data: Catalog, prev: Option<Catalog>, defaultLang: string)
    requires prev.None? || defaultLang !in prev.value || defaultLang !in data
    ensures SyncJsonFile(data, prev, defaultLang) == Write(data)
  {
  }

  /** Otherwise what is written is the merge. */
  lemma SyncWritesMerge(data: Catalog, prev: Catalog, defaultLang: string)
    requires defaultLang in prev && defaultLang in data
    requires prev[defaultLang].Keys != data[defaultLang].Keys || prev.Keys != data.Keys
    ensures SyncJsonFile(data, Some(prev), defaultLang) == Write(Merge(prev, data))
  {
    SyncSkipIff(data, Some(prev), defaultLang);
  }

  // ---------------------------------------------------------------------------
  // JSON objects with their key order, and sortObjectByKey

  /** An object's members in source order, as `JSON.parse` reads them. */
  type Fields<V> = seq<(string, V)>

  /** The catalog file: languages, each with its keys and messages. */
  type Document = Fields<Fields<string>>

  /** The object `JSON.parse` builds: a repeated key keeps its last value. */
  function ToMap<V>(f: Fields<V>): (r: map<string, V>)
    ensures forall i | 0 <= i < |f| :: f[i].0 in r
  {
    if f == [] then map[]
    else
      var rest := ToMap(f[1..]);
      assert forall i | 1 <= i < |f| :: f[i] == f[1..][i - 1];
      if f[0].0 in rest then rest else rest[f[0].0 := f[0].1]
  }

  /** The keys of `f`. */
  function Names<V>(f: Fields<V>): (r: seq<string>)
    ensures |r| == |f|
  {
    seq(|f|, i requires 0 <= i < |f| => f[i].0)
  }

  /** `Object.keys`: every key once, where it first appears. */
  function ObjectKeys<V>(f: Fields<V>): (r: seq<string>)
    ensures |r| <= |f|
  {
    if f == [] then [] else [f[0].0] + Without(ObjectKeys(f[1..]), f[0].0)
  }

  function Without(s: seq<string>, x: string): (r: seq<string>)
    ensures |r| <= |s|
    ensures forall y :: y in r <==> y in s && y != x
  {
    if s == [] then []
    else if s[0] == x then Without(s[1..], x)
    else [s[0]] + Without(s[1..], x)
  }

  predicate Distinct(s: seq<string>) {
    forall i, j | 0 <= i < j < |s| :: s[i] != s[j]
  }

  lemma {:induction false} WithoutDistinct(s: seq<string>, x: string)
    requires Distinct(s)
    ensures Distinct(Without(s, x))
  {
    if s != [] {
      WithoutDistinct(s[1..], x);
      var w := Without(s[1..], x);
      if s[0] != x {
        forall i, j | 0 <= i < j < |[s[0]] + w| ensures ([s[0]] + w)[i] != ([s[0]] + w)[j] {
          if i == 0 {
            assert ([s[0]] + w)[j] in s[1..];
          }
        }
      }
    }
  }

  /** `Object.keys` lists the object's keys, each once. */
  lemma {:induction false} ObjectKeysSpec<V>(f: Fields<V>)
    ensures forall x :: x in ObjectKeys(f) <==> x in ToMap(f)
    ensures Distinct(ObjectKeys(f))
  {
    if f != [] {
      ObjectKeysSpec(f[1..]);
      var w := ObjectKeys(f[1..]);
      WithoutDistinct(w, f[0].0);
      var r := [f[0].0] + Without(w, f[0].0);
      assert ObjectKeys(f) == r;
      forall i, j | 0 <= i < j < |r| ensures r[i] != r[j] {
        if i == 0 {
          assert r[j] in Without(w, f[0].0);
        }
      }
    }
  }

  /** The members `(k, m[k])` for the keys `ks`, in that order. */
  function Pairs<V>(ks: seq<string>, m: map<string, V>): (r: Fields<V>)
    requires forall k | k in ks :: k in m
    ensures Names(r) == ks
  {
    if ks == [] then []
    else [(ks[0], m[ks[0]])] + Pairs(ks[1..], m)
  }

  lemma {:induction false} PairsToMap<V>(ks: seq<string>, m: map<string, V>)
    requires forall k | k in ks :: k in m
    ensures ToMap(Pairs(ks, m)) == map k | k in ks :: m[k]
  {
    if ks != [] {
      PairsToMap(ks[1..], m);
      var p := Pairs(ks, m);
      assert p == [(ks[0], m[ks[0]])] + Pairs(ks[1..], m);
      assert p[1..] == Pairs(ks[1..], m);
      var rest := map k | k in ks[1..] :: m[k];
      assert ToMap(p[1..]) == rest;
      var whole := map k | k in ks :: m[k];
      if ks[0] in rest {
        assert whole == rest;
      } else {
        assert whole == rest[ks[0] := m[ks[0]]];
      }
    }
  }

  /** An object's members with the keys sorted. */
  function SortFields<V>(m: map<string, V>): (r: Fields<V>)
    ensures |r| == |m|
  {
    SortedKeysSpec(m.Keys);
    assert |Names(Pairs(SortedKeys(m.Keys), m))| == |m.Keys|;
    Pairs(SortedKeys(m.Keys), m)
  }

  /** `sortObjectByKey` on a catalog: languages sorted, and each language's
      keys sorted; the messages (string leaves) are copied. */
  function SortObjectByKey(c: Catalog): Document {
    SortFields(map l | l in c :: SortFields(c[l]))
  }

  /** Sorted members: keys in increasing order, reading back as the map. */
  lemma SortFieldsSpec<V>(m: map<string, V>)
    ensures Increasing(Names(SortFields(m)))
    ensures ToMap(SortFields(m)) == m
  {
    SortedKeysSpec(m.Keys);
    var ks := SortedKeys(m.Keys);
    PairsToMap(ks, m);
    assert (map k | k in ks :: m[k]) == m;
  }

  /** The catalog as `JSON.parse` reads the written file back. */
  function Parse(d: Document): (r: Catalog)
    ensures r.Keys == ToMap(d).Keys
  {
    map l | l in ToMap(d) :: ToMap(ToMap(d)[l])
  }

  /** The written document is sorted at both levels. */
  lemma SortObjectByKeySorted(c: Catalog)
    ensures Increasing(Names(SortObjectByKey(c)))
    ensures forall i | 0 <= i < |SortObjectByKey(c)| :: Increasing(Names(SortObjectByKey(c)[i].1))
  {
    SortFieldsSpec(map l | l in c :: SortFields(c[l]));
    var d := SortObjectByKey(c);
    forall i | 0 <= i < |d| ensures Increasing(Names(d[i].1)) {
      SortObjectByKeyEntry(c, i);
      SortFieldsSpec(c[d[i].0]);
    }
  }

  /** The written document reads back as the catalog it was made from. */
  lemma SortObjectByKeyParses(c: Catalog)
    ensures Parse(SortObjectByKey(c)) == c
  {
    var inner := map l | l in c :: SortFields(c[l]);
    SortFieldsSpec(inner);
    var d := SortObjectByKey(c);
    assert ToMap(d) == inner;
    InnerFieldsRead(c);
    ParseOf(d, inner, c);
  }

  lemma ParseOf(d: Document, inner: map<string, Fields<string>>, c: Catalog)
    requires ToMap(d) == inner && inner.Keys == c.Keys
    requires forall l | l in c :: ToMap(inner[l]) == c[l]
    ensures Parse(d) == c
  {
  }

  lemma InnerFieldsRead(c: Catalog)
    ensures forall l | l in c :: ToMap(SortFields(c[l])) == c[l]
  {
    forall l | l in c ensures ToMap(SortFields(c[l])) == c[l] {
      SortFieldsSpec(c[l]);
    }
  }

  /** Each language entry of the document is that language's members, sorted. */
  lemma SortObjectByKeyEntry(c: Catalog, i: nat)
    requires i < |SortObjectByKey(c)|
    ensures SortObjectByKey(c)[i].0 in c
    ensures SortObjectByKey(c)[i].1 == SortFields(c[SortObjectByKey(c)[i].0])
  {
    var inner := map l | l in c :: SortFields(c[l]);
    SortedKeysSpec(inner.Keys);
    var ks := SortedKeys(inner.Keys);
    assert SortObjectByKey(c) == Pairs(ks, inner);
    PairsAt(ks, inner, i);
    assert ks[i] in ks;
    assert ks[i] in inner.Keys;
    assert inner[ks[i]] == SortFields(c[ks[i]]);
  }

  lemma {:induction false} PairsAt<V>(ks: seq<string>, m: map<string, V>, i: nat)
    requires forall k | k in ks :: k in m
    requires i < |ks|
    ensures Pairs(ks, m)[i] == (ks[i], m[ks[i]])
  {
    if i > 0 {
      PairsAt(ks[1..], m, i - 1);
    }
  }

  // ---------------------------------------------------------------------------
  // compressMessages and the decoder in the generated code

  /** A configured language; hidden ones are left out of the table. */
  datatype Language = Language(key: string, hide: bool)

  /** `languages.filter(l => !l.hide).map(l => l.key)`. */
  function Visible(languages: seq<Language>): (r: seq<string>)
    ensures |r| <= |languages|
  {
    if languages == [] then []
    else (if languages[0].hide then [] else [languages[0].key]) + Visible(languages[1..])
  }

  lemma {:induction false} VisibleSpec(languages: seq<Language>)
    ensures forall x :: x in Visible(languages) <==>
      exists i | 0 <= i < |languages| :: !languages[i].hide && languages[i].key == x
  {
    if languages != [] {
      VisibleSpec(languages[1..]);
      forall x ensures x in Visible(languages) <==>
        exists i | 0 <= i < |languages| :: !languages[i].hide && languages[i].key == x
      {
        if x in Visible(languages[1..]) {
          var i :| 0 <= i < |languages[1..]| && !languages[1..][i].hide && languages[1..][i].key == x;
          assert languages[i + 1] == languages[1..][i];
        }
        if exists i | 0 <= i < |languages| :: !languages[i].hide && languages[i].key == x {
          var i :| 0 <= i < |languages| && !languages[i].hide && languages[i].key == x;
          if i > 0 {
            assert languages[1..][i - 1] == languages[i];
          }
        }
      }
    }
  }

  /** The filter keeps the configured order: the visible codes of two lists
      one after the other are those of the first, then those of the second. */
  lemma {:induction false} VisibleAppend(a: seq<Language>, b: seq<Language>)
    ensures Visible(a + b) == Visible(a) + Visible(b)
    decreases |a|
  {
    if a == [] {
      assert a + b == b;
    } else {
      assert (a + b)[1..] == a[1..] + b;
      VisibleAppend(a[1..], b);
    }
  }

  /** The language whose keys head the table: `langs[0]`, read as the
      property name "undefined" when no language is visible. */
  function FirstVisible(languages: seq<Language>): string {
    var langs := Visible(languages);
    if langs == [] then "undefined" else langs[0]
  }

  /** A JSON array element: a string, or `null` (what `undefined` becomes). */
  type Cell = Option<string>

  /** The compressed table: the key row, then one row per language. */
  type Table = seq<seq<Cell>>

  /** The message under `k` as a cell. */
  function CellOf(values: map<string, string>, k: string): Cell {
    if k in values then Some(values[k]) else None
  }

  /** The messages of `l` (an empty object when `l` is absent: only read
      when there are no keys). */
  function Messages(cat: map<string, Fields<string>>, l: string): map<string, string> {
    if l in cat then ToMap(cat[l]) else map[]
  }

  function KeyRow(keys: seq<string>): (r: seq<Cell>)
    ensures |r| == |keys|
  {
    seq(|keys|, i requires 0 <= i < |keys| => Some(keys[i]))
  }

  /** `[...keys.map(k => messages[l][k]), l]`. */
  function Row(keys: seq<string>, values: map<string, string>, lang: string): (r: seq<Cell>)
    ensures |r| == |keys| + 1
  {
    seq(|keys|, i requires 0 <= i < |keys| => CellOf(values, keys[i])) + [Some(lang)]
  }

  function Rows(keys: seq<string>, langs: seq<string>, cat: map<string, Fields<string>>): (r: Table)
    ensures |r| == |langs|
  {
    seq(|langs|, i requires 0 <= i < |langs| => Row(keys, Messages(cat, langs[i]), langs[i]))
  }

  /** `compressMessages` on the parsed catalog file. Reading the first
      visible language's keys throws when it is missing, and so does reading
      a message of a missing language (only done when there are keys). */
  function CompressMessages(messages: Document, languages: seq<Language>): (r: Result<Table>)
    ensures r.Ok? ==> |r.value| == 1 + |Visible(languages)|
  {
    var langs := Visible(languages);
    var cat := ToMap(messages);
    var first := FirstVisible(languages);
    if first !in cat then Err(MissingLanguage)
    else
      var keys := ObjectKeys(cat[first]);
      if keys != [] && exists l | l in langs :: l !in cat then Err(MissingLanguage)
      else Ok([KeyRow(keys)] + Rows(keys, langs, cat))
  }

  /** The table's shape: the key row of the first visible language, then for
      each visible language one cell per key followed by the language code. */
  lemma CompressShape(messages: Document, languages: seq<Language>)
    requires CompressMessages(messages, languages).Ok?
    ensures var t := CompressMessages(messages, languages).value;
      var keys := ObjectKeys(ToMap(messages)[FirstVisible(languages)]);
      && t[0] == KeyRow(keys)
      && forall i | 1 <= i < |t| ::
           |t[i]| == |keys| + 1 && t[i][|keys|] == Some(Visible(languages)[i - 1])
  {
  }

  /** The table is refused exactly when the first visible language, or (with
      keys to read) any visible language, is missing. */
  lemma CompressFails(messages: Document, languages: seq<Language>)
    ensures CompressMessages(messages, languages).Err? <==>
      var cat := ToMap(messages);
      FirstVisible(languages) !in cat
      || (ObjectKeys(cat[FirstVisible(languages)]) != []
          && exists l | l in Visible(languages) :: l !in cat)
  {
  }

  /** The property name a cell stands for in `{[k]: …}`. */
  function KeyName(c: Cell): string {
    match c
    case None => "null"
    case Some(s) => s
  }

  /** `l.at(-1)`: the language code closing a row. */
  function LangName(row: seq<Cell>): string {
    if row == [] then "undefined" else KeyName(row[|row| - 1])
  }

  /** `_cm[0].reduce((m, k, i) => ({ ...m, [k]: l[i] }), {})`; a position
      past the row reads `undefined`, taken here as `null`. */
  function Zip(keys: seq<Cell>, row: seq<Cell>): map<string, Cell> {
    if keys == [] then map[]
    else
      var n := |keys| - 1;
      Zip(keys[..n], row)[KeyName(keys[n]) := if n < |row| then row[n] else None]
  }

  /** `_cm.slice(1).reduce((a, l) => ({ ...a, [l.at(-1)]: … }), {})`: a later
      row of the same language wins. */
  function Decode(t: Table): map<string, map<string, Cell>> {
    if |t| <= 1 then map[]
    else
      var n := |t| - 1;
      Decode(t[..n])[LangName(t[n]) := Zip(t[0], t[n])]
  }

  /** What the decoder should give for language `l`: each key of the key row
      with its message, or `null` when `l` has none. */
  function Expected(keys: seq<string>, values: map<string, string>): map<string, Cell> {
    map k | k in keys :: CellOf(values, k)
  }

  lemma {:induction false} ZipRow(keys: seq<string>, values: map<string, string>, lang: string, n: nat)
    requires n <= |keys|
    ensures Zip(KeyRow(keys)[..n], Row(keys, values, lang)) == Expected(keys[..n], values)
  {
    var row := Row(keys, values, lang);
    if n > 0 {
      var ks := KeyRow(keys)[..n];
      assert ks[..n - 1] == KeyRow(keys)[..n - 1];
      ZipRow(keys, values, lang, n - 1);
      assert KeyName(ks[n - 1]) == keys[n - 1];
      assert row[n - 1] == CellOf(values, keys[n - 1]);
      assert keys[..n] == keys[..n - 1] + [keys[n - 1]];
      assert Zip(ks, row) == Expected(keys[..n - 1], values)[keys[n - 1] := CellOf(values, keys[n - 1])];
    }
  }

  lemma {:induction false} DecodeRows(keys: seq<string>, langs: seq<string>, cat: map<string, Fields<string>>, n: nat)
    requires n <= |langs|
    ensures Decode([KeyRow(keys)] + Rows(keys, langs, cat)[..n])
         == map l | l in langs[..n] :: Expected(keys, Messages(cat, l))
  {
    if n > 0 {
      var rows := Rows(keys, langs, cat);
      var x := langs[n - 1];
      var t := [KeyRow(keys)] + rows[..n];
      PrefixStep(KeyRow(keys), rows, n);
      DecodeStep(t);
      DecodeRows(keys, langs, cat, n - 1);
      RowDecodes(keys, Messages(cat, x), x);
      TakeSnoc(langs, n);
      ExpectedSnoc(keys, cat, langs[..n - 1], x);
    }
  }

  lemma TakeSnoc(s: seq<string>, n: nat)
    requires 0 < n <= |s|
    ensures s[..n] == s[..n - 1] + [s[n - 1]]
  {
  }

  lemma PrefixStep(head: seq<Cell>, rows: Table, n: nat)
    requires 0 < n <= |rows|
    ensures var t := [head] + rows[..n];
      |t| == n + 1 && t[..n] == [head] + rows[..n - 1] && t[n] == rows[n - 1] && t[0] == head
  {
    var t := [head] + rows[..n];
    assert t[..n] == [head] + rows[..n - 1];
  }

  lemma DecodeStep(t: Table)
    requires |t| >= 2
    ensures Decode(t) == Decode(t[..|t| - 1])[LangName(t[|t| - 1]) := Zip(t[0], t[|t| - 1])]
  {
  }

  /** A row decodes as its language's expected messages. */
  lemma RowDecodes(keys: seq<string>, values: map<string, string>, lang: string)
    ensures LangName(Row(keys, values, lang)) == lang
    ensures Zip(KeyRow(keys), Row(keys, values, lang)) == Expected(keys, values)
  {
    ZipRow(keys, values, lang, |keys|);
    assert KeyRow(keys)[..|keys|] == KeyRow(keys) && keys[..|keys|] == keys;
  }

  lemma ExpectedSnoc(keys: seq<string>, cat: map<string, Fields<string>>, ls: seq<string>, x: string)
    ensures (map l | l in ls + [x] :: Expected(keys, Messages(cat, l)))
         == (map l | l in ls :: Expected(keys, Messages(cat, l)))[x := Expected(keys, Messages(cat, x))]
  {
  }

  /** Decoding the compressed table gives back, for every visible language,
      every key of the first visible language with that language's message
      (`null` where it has none). */
  lemma CompressRoundTrip(messages: Document, languages: seq<Language>)
    requires CompressMessages(messages, languages).Ok?
    ensures var cat := ToMap(messages);
      var keys := ObjectKeys(cat[FirstVisible(languages)]);
      && (forall k :: k in keys <==> k in ToMap(cat[FirstVisible(languages)]))
      && Decode(CompressMessages(messages, languages).value)
         == map l | l in Visible(languages) :: Expected(keys, Messages(cat, l))
  {
    var cat := ToMap(messages);
    var langs := Visible(languages);
    var keys := ObjectKeys(cat[FirstVisible(languages)]);
    ObjectKeysSpec(cat[FirstVisible(languages)]);
    DecodeRows(keys, langs, cat, |langs|);
    assert Rows(keys, langs, cat)[..|langs|] == Rows(keys, langs, cat);
    assert langs[..|langs|] == langs;
  }
}
