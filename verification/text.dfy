/** The text helpers of `utils.js`: whitespace trimming, quote removal,
    attribute binding names, file names, the default matcher and the key
    generator. */
module Text {
  import opened Wrappers
  import opened Strings

  // ---------------------------------------------------------------------------
  // Character classes

  /** ECMAScript `\s` (WhiteSpace and LineTerminator), which `trim()` also removes. */
  predicate IsSpace(c: char) {
    || c == '\t' || c == '\n' || c == '\U{000B}' || c == '\U{000C}' || c == '\r'
    || c == ' ' || c == '\U{00A0}' || c == '\U{1680}'
    || ('\U{2000}' <= c <= '\U{200A}')
    || c == '\U{2028}' || c == '\U{2029}' || c == '\U{202F}' || c == '\U{205F}'
    || c == '\U{3000}' || c == '\U{FEFF}'
  }

  /** The characters `.` refuses to match in a regular expression without the `s` flag. */
  predicate IsLineTerminator(c: char) {
    c == '\n' || c == '\r' || c == '\U{2028}' || c == '\U{2029}'
  }

  predicate IsQuote(c: char) {
    c == '\'' || c == '"'
  }

  predicate AllSpace(s: string) {
    forall i :: 0 <= i < |s| ==> IsSpace(s[i])
  }

  predicate NoSpace(s: string) {
    forall i :: 0 <= i < |s| ==> !IsSpace(s[i])
  }

  predicate NoLineTerminator(s: string) {
    forall i :: 0 <= i < |s| ==> !IsLineTerminator(s[i])
  }

  /** The default matcher `chineseRegex`: a character class with a `+`, so a
      string matches exactly when one of its characters is in the class. */
  predicate IsChineseChar(c: char) {
    || ('\U{4E00}' <= c <= '\U{9FA5}')
    || c == '\U{3002}' || c == '\U{FF1B}' || c == '\U{FF0C}' || c == '\U{FF1A}'
    || c == '\U{2018}' || c == '\U{2019}' || c == '\U{201C}' || c == '\U{201D}'
    || c == '\U{FF08}' || c == '\U{FF09}' || c == '\U{3001}' || c == '\U{FF1F}'
    || c == '\U{FF01}' || c == '\U{FE15}' || c == '\U{300A}' || c == '\U{300B}'
  }

  predicate ChineseMatch(s: string) {
    exists i | 0 <= i < |s| :: IsChineseChar(s[i])
  }

  /** A character-class matcher matches a concatenation exactly when it
      matches one of the two halves. */
  lemma ChineseMatchAppend(a: string, b: string)
    ensures ChineseMatch(a + b) <==> ChineseMatch(a) || ChineseMatch(b)
  {
    if ChineseMatch(a + b) {
      var i :| 0 <= i < |a + b| && IsChineseChar((a + b)[i]);
      if i < |a| {
        assert IsChineseChar(a[i]);
      } else {
        assert IsChineseChar(b[i - |a|]);
      }
    }
    if ChineseMatch(a) {
      var i :| 0 <= i < |a| && IsChineseChar(a[i]);
      assert (a + b)[i] == a[i];
    }
    if ChineseMatch(b) {
      var i :| 0 <= i < |b| && IsChineseChar(b[i]);
      assert (a + b)[|a| + i] == b[i];
    }
  }

  // ---------------------------------------------------------------------------
  // trimText

  function TrimStart(s: string): (r: string)
    ensures |r| <= |s| && r == s[|s| - |r|..]
    ensures AllSpace(s[..|s| - |r|])
    ensures r == [] || !IsSpace(r[0])
  {
    if s != [] && IsSpace(s[0]) then
      var r := TrimStart(s[1..]);
      LeadingStep(s, r);
      r
    else s
  }

  /** A tail of `s[1..]` behind blanks is a tail of `s` behind blanks, when
      `s` starts with a blank. */
  lemma LeadingStep(s: string, r: string)
    requires s != [] && IsSpace(s[0])
    requires |r| <= |s| - 1 && r == s[1..][|s| - 1 - |r|..]
    requires AllSpace(s[1..][..|s| - 1 - |r|])
    ensures r == s[|s| - |r|..] && AllSpace(s[..|s| - |r|])
  {
    var k := |s| - |r|;
    assert s[1..][k - 1..] == s[k..];
    forall i | 0 <= i < k ensures IsSpace(s[..k][i]) {
      if i > 0 {
        assert s[..k][i] == s[1..][..k - 1][i - 1];
      }
    }
  }

  function TrimEnd(s: string): (r: string)
    ensures |r| <= |s| && r == s[..|r|]
    ensures AllSpace(s[|r|..])
    ensures r == [] || !IsSpace(r[|r| - 1])
  {
    if s != [] && IsSpace(s[|s| - 1]) then
      var r := TrimEnd(s[..|s| - 1]);
      TrailingStep(s, r);
      r
    else s
  }

  /** A head of `s` minus its last character, before blanks, is a head of
      `s` before blanks, when `s` ends with a blank. */
  lemma TrailingStep(s: string, r: string)
    requires s != [] && IsSpace(s[|s| - 1])
    requires |r| <= |s| - 1 && r == s[..|s| - 1][..|r|]
    requires AllSpace(s[..|s| - 1][|r|..])
    ensures r == s[..|r|] && AllSpace(s[|r|..])
  {
    var n := |s| - |r|;
    forall i | 0 <= i < n ensures IsSpace(s[|r|..][i]) {
      if i < n - 1 {
        assert s[|r|..][i] == s[..|s| - 1][|r|..][i];
      }
    }
  }

  /** `trimText`: `trim()` followed by a replace whose pattern can only match
      leading whitespace, of which none is left, so internal runs of whitespace
      are kept as they are. The result is a slice of the input that drops
      exactly the leading and trailing whitespace. */
  function TrimText(s: string): (r: string)
    ensures exists i, j :: 0 <= i <= j <= |s| && r == s[i..j] && AllSpace(s[..i]) && AllSpace(s[j..])
    ensures r == [] || (!IsSpace(r[0]) && !IsSpace(r[|r| - 1]))
  {
    var a := TrimStart(s);
    var b := TrimEnd(a);
    SliceOfTail(s, |s| - |a|, |b|);
    b
  }

  /** Slicing a tail of `s` is slicing `s` itself, shifted. */
  lemma SliceOfTail(s: string, k: nat, n: nat)
    requires k + n <= |s|
    ensures s[k..][..n] == s[k..k + n] && s[k..][n..] == s[k + n..]
  {
  }

  lemma {:induction false} TrimStartOfPadded(w: string, t: string)
    requires AllSpace(w) && (t == [] || !IsSpace(t[0]))
    ensures TrimStart(w + t) == t
  {
    if w != [] {
      assert (w + t)[1..] == w[1..] + t;
      assert (w + t)[0] == w[0];
      assert TrimStart(w + t) == TrimStart(w[1..] + t);
      TrimStartOfPadded(w[1..], t);
    } else {
      assert w + t == t;
    }
  }

  lemma {:induction false} TrimEndOfPadded(t: string, w: string)
    requires AllSpace(w) && (t == [] || !IsSpace(t[|t| - 1]))
    ensures TrimEnd(t + w) == t
  {
    if w != [] {
      assert (t + w)[..|t + w| - 1] == t + w[..|w| - 1];
      assert (t + w)[|t + w| - 1] == w[|w| - 1];
      assert TrimEnd(t + w) == TrimEnd(t + w[..|w| - 1]);
      TrimEndOfPadded(t, w[..|w| - 1]);
    } else {
      assert t + w == t;
    }
  }

  /** Whitespace around a text with non-blank ends is removed and nothing else:
      in particular internal whitespace survives unchanged. */
  lemma {:induction false} TrimTextOfPadded(w1: string, t: string, w2: string)
    requires AllSpace(w1) && AllSpace(w2)
    requires t == [] || (!IsSpace(t[0]) && !IsSpace(t[|t| - 1]))
    ensures TrimText(w1 + t + w2) == t
  {
    if t == [] {
      assert w1 + t + w2 == w1 + w2;
      TrimStartOfPadded(w1 + w2, []);
      assert w1 + w2 + [] == w1 + w2;
      assert AllSpace(w1 + w2);
      TrimEndOfPadded([], []);
    } else {
      assert w1 + t + w2 == w1 + (t + w2);
      TrimStartOfPadded(w1, t + w2);
      TrimEndOfPadded(t, w2);
    }
  }

  lemma TrimTextIdempotent(s: string)
    ensures TrimText(TrimText(s)) == TrimText(s)
  {
    TrimTextOfTrimmed(TrimText(s));
  }

  /** A text with no whitespace at either end is its own trimming. */
  lemma TrimTextOfTrimmed(t: string)
    requires t == [] || (!IsSpace(t[0]) && !IsSpace(t[|t| - 1]))
    ensures TrimText(t) == t
  {
    assert TrimStart(t) == t;
    assert TrimEnd(t) == t;
  }

  /** `s[a..b]` is all whitespace, stated on indices of `s`. */
  predicate SpacesBetween(s: string, a: nat, b: nat) {
    a <= b <= |s| && forall i :: a <= i < b ==> IsSpace(s[i])
  }

  lemma SpacesBetweenSlice(s: string, a: nat, b: nat)
    requires SpacesBetween(s, a, b)
    ensures AllSpace(s[a..b])
  {
    forall i | 0 <= i < b - a ensures IsSpace(s[a..b][i]) {
      assert s[a..b][i] == s[a + i];
    }
  }

  /** The length of the run of whitespace starting at `k` (a greedy `\s*`). */
  function SpaceRun(s: string, k: nat): (n: nat)
    requires k <= |s|
    ensures SpacesBetween(s, k, k + n)
    ensures k + n == |s| || !IsSpace(s[k + n])
    decreases |s| - k
  {
    if k < |s| && IsSpace(s[k]) then 1 + SpaceRun(s, k + 1) else 0
  }

  /** A run of blanks followed by a non-blank (or the end) is the run. */
  lemma SpaceRunIs(s: string, k: nat, n: nat)
    requires SpacesBetween(s, k, k + n)
    requires k + n == |s| || !IsSpace(s[k + n])
    ensures SpaceRun(s, k) == n
  {
  }


  // ---------------------------------------------------------------------------
  // removeQuotes

  /** `removeQuotes`: the regex `^(\s*)['"](.*)['"](\s*)$` must match, and its
      second group is returned. The opening quote is the first non-blank
      character, the closing quote the last one, and `.` excludes line
      terminators; a failed match is indexed and throws. */
  function RemoveQuotes(text: string): (r: Result<string>)
    ensures r.Ok? ==> |r.value| + 2 <= |text|
    ensures r.Err? ==> r.error == QuotesMissing
  {
    var lead := |text| - |TrimStart(text)|;
    var end := |TrimEnd(text)|;
    if lead + 1 < end && IsQuote(text[lead]) && IsQuote(text[end - 1])
      && NoLineTerminator(text[lead + 1..end - 1])
    then
      Ok(text[lead + 1..end - 1])
    else
      Err(QuotesMissing)
  }

  /** What `removeQuotes` accepts is blanks, a quote, a line of text, a quote
      and blanks, and it returns that line. */
  lemma RemoveQuotesShape(text: string)
    requires RemoveQuotes(text).Ok?
    ensures exists w1, q1, q2, w2 ::
      text == w1 + [q1] + RemoveQuotes(text).value + [q2] + w2 && Quoted(w1, q1, RemoveQuotes(text).value, q2, w2)
  {
    var lead := |text| - |TrimStart(text)|;
    var end := |TrimEnd(text)|;
    assert RemoveQuotes(text) == Ok(text[lead + 1..end - 1]);
    QuotedParts(text, lead, end, text[lead + 1..end - 1]);
  }

  lemma QuotedParts(text: string, lead: nat, end: nat, body: string)
    requires lead + 1 < end <= |text| && IsQuote(text[lead]) && IsQuote(text[end - 1])
    requires body == text[lead + 1..end - 1]
    requires AllSpace(text[..lead]) && AllSpace(text[end..]) && NoLineTerminator(body)
    ensures exists w1, q1, q2, w2 :: text == w1 + [q1] + body + [q2] + w2 && Quoted(w1, q1, body, q2, w2)
  {
    var w1, w2 := text[..lead], text[end..];
    assert text == w1 + [text[lead]] + body + [text[end - 1]] + w2;
    assert Quoted(w1, text[lead], body, text[end - 1], w2);
  }

  /** The shape the regex of `removeQuotes` accepts, split into its parts. */
  predicate Quoted(w1: string, q1: char, body: string, q2: char, w2: string) {
    AllSpace(w1) && IsQuote(q1) && NoLineTerminator(body) && IsQuote(q2) && AllSpace(w2)
  }

  lemma QuotedShape(text: string, w1: string, q1: char, body: string, q2: char, w2: string)
    requires text == w1 + [q1] + body + [q2] + w2 && Quoted(w1, q1, body, q2, w2)
    ensures |text| - |TrimStart(text)| == |w1|
    ensures |TrimEnd(text)| == |w1| + |body| + 2
  {
    var tail := [q1] + body + [q2] + w2;
    var head := w1 + [q1] + body + [q2];
    assert tail[0] == q1 && head[|head| - 1] == q2;
    assert text == w1 + tail;
    TrimStartOfPadded(w1, tail);
    TrimEndOfPadded(head, w2);
  }

  /** Round trip: quoting a line of text and padding it with blanks, then
      removing the quotes, gives the text back. */
  lemma RemoveQuotesOfQuoted(w1: string, q1: char, body: string, q2: char, w2: string)
    requires Quoted(w1, q1, body, q2, w2)
    ensures RemoveQuotes(w1 + [q1] + body + [q2] + w2) == Ok(body)
  {
    var text := w1 + [q1] + body + [q2] + w2;
    QuotedShape(text, w1, q1, body, q2, w2);
    QuotedPieces(w1, q1, body, q2, w2);
  }

  lemma QuotedPieces(w1: string, q1: char, body: string, q2: char, w2: string)
    ensures var text := w1 + [q1] + body + [q2] + w2;
      && text[|w1|] == q1 && text[|w1| + |body| + 1] == q2
      && text[|w1| + 1..|w1| + |body| + 1] == body
  {
    var text := w1 + [q1] + body + [q2] + w2;
    assert text[|w1| + 1..|w1| + |body| + 1] == body;
  }

  // ---------------------------------------------------------------------------
  // nameAsVariable

  /** `nameAsVariable`: an attribute name becomes a bound (`:`-prefixed) name. */
  function NameAsVariable(name: string): (r: string)
    ensures |r| > 0 && r[0] == ':'
    ensures r == name || r == ":" + name
    ensures |name| > 0 && name[0] == ':' ==> r == name
  {
    if |name| > 0 && name[0] == ':' then name else ":" + name
  }

  lemma NameAsVariableIdempotent(name: string)
    ensures NameAsVariable(NameAsVariable(name)) == NameAsVariable(name)
  {
  }

  // ---------------------------------------------------------------------------
  // getFileName

  /** The last `/`-separated segment of a path (`split("/")` then the last element):
      a suffix of the path with no `/`, starting at the front or right after a `/`. */
  function LastSegment(path: string): (r: string)
    ensures '/' !in r
    ensures |r| <= |path| && r == path[|path| - |r|..]
    ensures |r| == |path| || path[|path| - |r| - 1] == '/'
  {
    match FindLast(path, "/", 0)
    case None =>
      CharAbsentFrom(path, '/', 0);
      path
    case Some(i) =>
      CharAbsentFrom(path, '/', i + 1);
      assert path[i..i + 1] == "/";
      path[i + 1..]
  }

  /** Whichever suffix starts the path or follows a `/` and holds no `/` is
      the last segment. */
  lemma LastSegmentOf(path: string, i: nat)
    requires i <= |path| && '/' !in path[i..]
    requires i == 0 || path[i - 1] == '/'
    ensures LastSegment(path) == path[i..]
  {
  }

  /** A file name up to its last `.`; without a `.`, `slice(0, -1)` drops the
      last character. */
  function Stem(file: string): (r: string)
    ensures '.' in file ==> exists ext :: file == r + ext && |ext| > 0 && ext[0] == '.' && '.' !in ext[1..]
    ensures '.' !in file ==> r == file[..if |file| > 0 then |file| - 1 else 0]
  {
    var last := FindLast(file, ".", 0);
    if last.Some? then
      var d := last.value;
      assert file[d..d + 1] == ".";
      CharAbsentFrom(file, '.', d + 1);
      StemWitness(file, d);
      file[..d]
    else
      CharAbsentFrom(file, '.', 0);
      assert file[0..] == file;
      file[..if |file| > 0 then |file| - 1 else 0]
  }

  lemma StemWitness(file: string, d: nat)
    requires d < |file| && file[d] == '.' && '.' !in file[d + 1..]
    ensures exists ext :: file == file[..d] + ext && |ext| > 0 && ext[0] == '.' && '.' !in ext[1..]
  {
    var ext := file[d..];
    assert ext[1..] == file[d + 1..];
    assert file == file[..d] + ext;
  }

  /** `getFileName`: the stem of the last path segment. */
  function GetFileName(path: string): (r: string)
    ensures '/' !in r
    ensures exists i :: 0 <= i <= |path| && '/' !in path[i..] && (i == 0 || path[i - 1] == '/')
                        && r == Stem(path[i..])
  {
    var file := LastSegment(path);
    var r := Stem(file);
    assert '/' !in r by {
      if '.' in file {
        var ext :| file == r + ext;
        assert forall k :: 0 <= k < |r| ==> r[k] == file[k];
      } else {
        assert forall k :: 0 <= k < |r| ==> r[k] == file[k];
      }
    }
    assert file == path[|path| - |file|..];
    r
  }

  /** The file name of a bare file, or of a file under any directory, is the
      stem of that file. */
  lemma {:induction false} GetFileNameOf(dir: string, file: string)
    requires '/' !in file
    ensures GetFileName(file) == Stem(file)
    ensures GetFileName(dir + "/" + file) == Stem(file)
  {
    assert file[0..] == file;
    LastSegmentOf(file, 0);
    var path := dir + "/" + file;
    var i := |dir| + 1;
    assert path[i..] == file;
    assert path[i - 1] == '/';
    LastSegmentOf(path, i);
  }

  // ---------------------------------------------------------------------------
  // getTextKey

  predicate IsHexDigit(c: char) {
    ('0' <= c <= '9') || ('a' <= c <= 'f')
  }

  /** The lower-case hexadecimal digest of MD5 (RFC 1321) that blueimp-md5 returns. */
  type Md5Hex = s: string | |s| == 32 && forall i | 0 <= i < |s| :: IsHexDigit(s[i])
    witness "00000000000000000000000000000000"

  /** `text.replace(/[\s\r\n]/g, "")`. */
  function StripWhitespace(s: string): (r: string)
    ensures NoSpace(r)
    ensures |r| <= |s|
  {
    if s == [] then []
    else if IsSpace(s[0]) then StripWhitespace(s[1..])
    else [s[0]] + StripWhitespace(s[1..])
  }

  /** The UTF-16 code units a character takes: a surrogate pair for one
      outside the Basic Multilingual Plane. */
  function Units(c: char): nat {
    if c as int > 0xFFFF then 2 else 1
  }

  /** A JavaScript string's `length`: its number of UTF-16 code units. */
  function Utf16Length(s: string): nat {
    if s == [] then 0 else Units(s[0]) + Utf16Length(s[1..])
  }

  lemma {:induction false} Utf16Append(a: string, b: string)
    ensures Utf16Length(a + b) == Utf16Length(a) + Utf16Length(b)
  {
    if a == [] {
      assert a + b == b;
    } else {
      assert (a + b)[1..] == a[1..] + b;
      Utf16Append(a[1..], b);
    }
  }

  /** In the Basic Multilingual Plane the two lengths agree. */
  lemma {:induction false} Utf16Bmp(s: string)
    requires forall k :: 0 <= k < |s| ==> s[k] as int <= 0xFFFF
    ensures Utf16Length(s) == |s|
  {
    if s != [] {
      assert forall k :: 0 <= k < |s[1..]| ==> s[1..][k] == s[k + 1];
      Utf16Bmp(s[1..]);
    }
  }

  /** The longest prefix of `s` that fits in `n` code units. */
  function Utf16Prefix(s: string, n: nat): (r: string)
    ensures |r| <= |s| && r == s[..|r|]
    ensures Utf16Length(r) <= n
    ensures |r| < |s| ==> Utf16Length(r) + Units(s[|r|]) > n
  {
    if s == [] || Units(s[0]) > n then []
    else
      var rest := Utf16Prefix(s[1..], n - Units(s[0]));
      assert ([s[0]] + rest)[1..] == rest;
      [s[0]] + rest
  }

  /** `p` is what `slice(0, 8)` keeps of a text `s` longer than eight code
      units, as far as a string of whole characters can: exactly eight units,
      or seven when the eighth is the first half of a surrogate pair. */
  predicate KeyStem(s: string, p: string) {
    && |p| < |s| && p == s[..|p|]
    && (Utf16Length(p) == 8 || (Utf16Length(p) == 7 && Units(s[|p|]) == 2))
  }

  /** A text has one key stem. */
  lemma {:induction false} KeyStemUnique(s: string, p: string, q: string)
    requires KeyStem(s, p) && KeyStem(s, q)
    ensures p == q
  {
    if |p| < |q| {
      KeyStemLonger(s, p, q);
    } else if |q| < |p| {
      KeyStemLonger(s, q, p);
    }
  }

  lemma {:induction false} KeyStemLonger(s: string, p: string, q: string)
    requires KeyStem(s, p) && |p| < |q| <= |s| && q == s[..|q|]
    ensures Utf16Length(q) > 8
  {
    var tail := q[|p|..];
    assert q == p + tail;
    Utf16Append(p, tail);
    assert tail[0] == s[|p|];
  }

  /** `getTextKey`: with `s` the text without blanks, a text of at most eight
      UTF-16 code units is its own key; a longer one is keyed by its first
      eight units, `_` and four hex digits of its MD5. */
  function GetTextKey(text: string, md5: string -> Md5Hex): (key: string)
    ensures NoSpace(key)
    ensures var s := StripWhitespace(text);
      && (Utf16Length(s) <= 8 <==> Utf16Length(key) <= 8)
      && (Utf16Length(s) <= 8 ==> key == s)
      && (Utf16Length(s) > 8 ==>
            && |key| >= 5 && key[|key| - 5] == '_' && key[|key| - 4..] == md5(text)[..4]
            && KeyStem(s, key[..|key| - 5]))
  {
    var s := StripWhitespace(text);
    if Utf16Length(s) > 8 then
      LongKey(s, md5(text));
      Utf16Prefix(s, 8) + "_" + md5(text)[..4]
    else s
  }

  /** The key of a text longer than eight units: its stem, `_` and four digits. */
  lemma LongKey(s: string, h: Md5Hex)
    requires NoSpace(s) && Utf16Length(s) > 8
    ensures var key := Utf16Prefix(s, 8) + "_" + h[..4];
      && NoSpace(key) && Utf16Length(key) > 8
      && |key| >= 5 && key[|key| - 5] == '_' && key[|key| - 4..] == h[..4]
      && KeyStem(s, key[..|key| - 5])
  {
    var p := Utf16Prefix(s, 8);
    var tail := "_" + h[..4];
    var key := p + tail;
    assert p + "_" + h[..4] == key;
    assert s[..|s|] == s;
    assert key[..|key| - 5] == p;
    assert key[|key| - 4..] == h[..4];
    DigestTail(h);
    Utf16Append(p, tail);
    NoSpaceAppend(s, |p|, tail);
  }

  /** `_` and four digest digits: five units, none of them blank. */
  lemma DigestTail(h: Md5Hex)
    ensures NoSpace("_" + h[..4]) && Utf16Length("_" + h[..4]) == 5
  {
    var tail := "_" + h[..4];
    assert IsHexDigit(h[0]) && IsHexDigit(h[1]) && IsHexDigit(h[2]) && IsHexDigit(h[3]);
    assert forall k :: 0 <= k < |tail| ==> tail[k] == '_' || IsHexDigit(tail[k]);
    Utf16Bmp(tail);
  }

  lemma NoSpaceAppend(s: string, n: nat, tail: string)
    requires NoSpace(s) && NoSpace(tail) && n <= |s|
    ensures NoSpace(s[..n] + tail)
  {
    var key := s[..n] + tail;
    forall k | 0 <= k < |key| ensures !IsSpace(key[k]) {
      if k < n {
        assert key[k] == s[k];
      } else {
        assert key[k] == tail[k - n];
      }
    }
  }

  /** When two texts get the same key: both short with the same non-blank
      characters, or both long with the same eight-unit prefix and the same
      four digest digits. */
  lemma {:induction false} KeyEquality(a: string, b: string, md5: string -> Md5Hex)
    ensures GetTextKey(a, md5) == GetTextKey(b, md5) <==>
      var sa, sb := StripWhitespace(a), StripWhitespace(b);
      || (Utf16Length(sa) <= 8 && Utf16Length(sb) <= 8 && sa == sb)
      || (&& Utf16Length(sa) > 8 && Utf16Length(sb) > 8
          && Utf16Prefix(sa, 8) == Utf16Prefix(sb, 8) && md5(a)[..4] == md5(b)[..4])
  {
    var ka, kb := GetTextKey(a, md5), GetTextKey(b, md5);
    var sa, sb := StripWhitespace(a), StripWhitespace(b);
    if Utf16Length(sa) > 8 && Utf16Length(sb) > 8 {
      var ha, hb := md5(a)[..4], md5(b)[..4];
      assert ka == Utf16Prefix(sa, 8) + "_" + ha;
      assert kb == Utf16Prefix(sb, 8) + "_" + hb;
      if ka == kb {
        assert |Utf16Prefix(sa, 8)| == |Utf16Prefix(sb, 8)|;
        assert Utf16Prefix(sa, 8) == ka[..|ka| - 5] == Utf16Prefix(sb, 8);
        assert ha == ka[|ka| - 4..] == hb;
      }
    }
  }
}
