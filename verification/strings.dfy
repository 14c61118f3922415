/** Substring search and literal replacement over `seq<char>`, with the
    semantics of `String.prototype.indexOf`, `lastIndexOf` and of `replace`
    called with a function (so that the replacement is inserted literally). */
module Strings {
  import opened Wrappers

  /** `pat` occurs in `s` starting at index `i`. */
  predicate OccursAt(s: string, pat: string, i: int) {
    0 <= i && i + |pat| <= |s| && s[i..i + |pat|] == pat
  }

  predicate Contains(s: string, pat: string) {
    exists i | 0 <= i <= |s| :: OccursAt(s, pat, i)
  }

  /** The first index at or after `from` where `pat` occurs (`indexOf(pat, from)`). */
  function FindFrom(s: string, pat: string, from: nat): (r: Option<nat>)
    ensures r.Some? ==> from <= r.value && OccursAt(s, pat, r.value)
    ensures r.Some? ==> forall j :: from <= j < r.value ==> !OccursAt(s, pat, j)
    ensures r.None? ==> forall j :: from <= j ==> !OccursAt(s, pat, j)
    decreases |s| - from
  {
    if from + |pat| > |s| then None
    else if s[from..from + |pat|] == pat then Some(from)
    else FindFrom(s, pat, from + 1)
  }

  function Find(s: string, pat: string): (r: Option<nat>)
    ensures r.Some? ==> OccursAt(s, pat, r.value)
    ensures r.Some? ==> forall j :: 0 <= j < r.value ==> !OccursAt(s, pat, j)
    ensures r.None? ==> forall j :: 0 <= j ==> !OccursAt(s, pat, j)
    ensures r.None? <==> !Contains(s, pat)
  {
    FindFrom(s, pat, 0)
  }

  /** The search finds the first occurrence from `from` on. */
  lemma FindFromIs(s: string, pat: string, from: nat, i: nat)
    requires from <= i && OccursAt(s, pat, i)
    requires forall k :: from <= k < i ==> !OccursAt(s, pat, k)
    ensures FindFrom(s, pat, from) == Some(i)
  {
    assert FindFrom(s, pat, from).Some?;
  }

  /** The last index `j >= lo` where `pat` occurs, searching down from `hi`. */
  function FindLastDown(s: string, pat: string, lo: nat, hi: int): (r: Option<nat>)
    ensures r.Some? ==> lo <= r.value <= hi && OccursAt(s, pat, r.value)
    ensures r.Some? ==> forall j :: r.value < j <= hi ==> !OccursAt(s, pat, j)
    ensures r.None? ==> forall j :: lo <= j <= hi ==> !OccursAt(s, pat, j)
    decreases hi - lo
  {
    if hi < lo then None
    else if OccursAt(s, pat, hi) then Some(hi)
    else FindLastDown(s, pat, lo, hi - 1)
  }

  /** The last index at or after `lo` where `pat` occurs. */
  function FindLast(s: string, pat: string, lo: nat): (r: Option<nat>)
    ensures r.Some? ==> lo <= r.value && OccursAt(s, pat, r.value)
    ensures r.Some? ==> forall j :: r.value < j ==> !OccursAt(s, pat, j)
    ensures r.None? ==> forall j :: lo <= j ==> !OccursAt(s, pat, j)
  {
    FindLastDown(s, pat, lo, |s| - |pat|)
  }

  /** `s.replace(pat, () => rep)`: the first occurrence of `pat` is replaced by
      `rep`, inserted literally; without an occurrence `s` is returned. */
  function ReplaceFirst(s: string, pat: string, rep: string): (r: string)
    ensures !Contains(s, pat) ==> r == s
    ensures Contains(s, pat) ==>
      exists i :: 0 <= i && i + |pat| <= |s| && OccursAt(s, pat, i)
        && (forall j :: 0 <= j < i ==> !OccursAt(s, pat, j))
        && r == s[..i] + rep + s[i + |pat|..]
  {
    match Find(s, pat)
    case None => s
    case Some(i) => s[..i] + rep + s[i + |pat|..]
  }

  /** The first index at or after `k` holding `c`. */
  function NextChar(s: string, c: char, k: nat): (r: Option<nat>)
    ensures r.Some? ==> k <= r.value < |s| && s[r.value] == c
    decreases |s| - k
  {
    if k >= |s| then None
    else if s[k] == c then Some(k)
    else NextChar(s, c, k + 1)
  }

  /** The search for `c` passes over other characters only. */
  lemma {:induction false} NextCharFirst(s: string, c: char, k: nat)
    requires NextChar(s, c, k).Some?
    ensures forall j :: k <= j < NextChar(s, c, k).value ==> s[j] != c
    decreases |s| - k
  {
    if s[k] != c {
      assert NextChar(s, c, k) == NextChar(s, c, k + 1);
      NextCharFirst(s, c, k + 1);
    }
  }

  /** The search for `c` fails only when `c` is absent from `k` on. */
  lemma {:induction false} NextCharNone(s: string, c: char, k: nat)
    ensures NextChar(s, c, k).None? <==> forall j :: k <= j < |s| ==> s[j] != c
    decreases |s| - k
  {
    if k < |s| && s[k] != c {
      assert NextChar(s, c, k) == NextChar(s, c, k + 1);
      NextCharNone(s, c, k + 1);
    }
  }

  /** A one-character pattern found nowhere from `lo` on is absent from `s[lo..]`. */
  lemma CharAbsentFrom(s: string, c: char, lo: nat)
    requires lo <= |s|
    requires forall j :: lo <= j ==> !OccursAt(s, [c], j)
    ensures c !in s[lo..]
  {
    forall k | 0 <= k < |s[lo..]| ensures s[lo..][k] != c {
      assert s[lo..][k] == s[lo + k];
      OccursChar(s, c, lo + k);
    }
  }

  /** An occurrence lying inside `s[a..b]` is an occurrence of that slice. */
  lemma OccursWithin(s: string, pat: string, a: nat, b: nat, k: nat)
    requires a <= k && k + |pat| <= b <= |s|
    ensures OccursAt(s, pat, k) <==> OccursAt(s[a..b], pat, k - a)
  {
    var y := s[a..b][k - a..k - a + |pat|];
    var z := s[k..k + |pat|];
    assert |y| == |z|;
    forall t | 0 <= t < |y| ensures y[t] == z[t] {
      assert y[t] == s[a..b][k - a + t];
    }
    assert y == z;
  }

  /** A one-character occurrence is just that character. */
  lemma OccursChar(s: string, c: char, k: int)
    requires 0 <= k < |s|
    ensures OccursAt(s, [c], k) <==> s[k] == c
  {
    assert s[k..k + 1] == [s[k]];
  }

  /** An occurrence in `b` is an occurrence in `a + b + c`, shifted by `|a|`. */
  lemma OccursShift(a: string, b: string, c: string, p: string, k: nat)
    requires OccursAt(b, p, k)
    ensures OccursAt(a + b + c, p, |a| + k)
  {
    assert (a + b + c)[|a| + k..|a| + k + |p|] == b[k..k + |p|];
  }

  lemma ContainsSandwich(a: string, b: string, c: string, p: string)
    requires Contains(b, p)
    ensures Contains(a + b + c, p)
  {
    var k :| 0 <= k <= |b| && OccursAt(b, p, k);
    OccursShift(a, b, c, p, k);
  }

  /** Replacing the first occurrence of `pat` with a text holding `p` leaves
      a result holding `p`. */
  lemma ReplaceFirstContains(s: string, pat: string, rep: string, p: string)
    requires Contains(s, pat) && Contains(rep, p)
    ensures Contains(ReplaceFirst(s, pat, rep), p)
  {
    var i :| 0 <= i && i + |pat| <= |s| && OccursAt(s, pat, i)
             && ReplaceFirst(s, pat, rep) == s[..i] + rep + s[i + |pat|..];
    ContainsSandwich(s[..i], rep, s[i + |pat|..], p);
  }

  /** Occurrences survive appending text after them. */
  lemma OccursPrefix(a: string, b: string, p: string, k: nat)
    requires OccursAt(a, p, k)
    ensures OccursAt(a + b, p, k)
  {
    assert (a + b)[k..k + |p|] == a[k..k + |p|];
  }

  /** Occurrences survive putting text in front, shifted by its length. */
  lemma OccursSuffix(a: string, b: string, p: string, k: nat)
    requires OccursAt(b, p, k)
    ensures OccursAt(a + b, p, |a| + k)
  {
    assert (a + b)[|a| + k..|a| + k + |p|] == b[k..k + |p|];
  }

  lemma ContainsPrefix(a: string, b: string, p: string)
    requires Contains(a, p)
    ensures Contains(a + b, p)
  {
    var k :| 0 <= k <= |a| && OccursAt(a, p, k);
    OccursPrefix(a, b, p, k);
  }

  lemma ContainsSuffix(a: string, b: string, p: string)
    requires Contains(b, p)
    ensures Contains(a + b, p)
  {
    var k :| 0 <= k <= |b| && OccursAt(b, p, k);
    OccursSuffix(a, b, p, k);
  }

  /** `p` is found right after `a` in `a + p + b`. */
  lemma ContainsMiddle(a: string, p: string, b: string)
    ensures OccursAt(a + p + b, p, |a|)
    ensures Contains(a + p + b, p)
  {
    assert (a + p + b)[|a|..|a| + |p|] == p;
    assert OccursAt(a + p + b, p, |a|);
  }

  /** Cutting `s` at `a` and `b` and joining the pieces gives `s` back. */
  lemma CutThree(s: string, a: nat, b: nat)
    requires a <= b <= |s|
    ensures s[..a] + s[a..b] + s[b..] == s
  {
    assert s[..a] + s[a..b] == s[..b];
    assert s[..b] + s[b..] == s;
  }

  /** `s` is the tail of `a + s`. */
  lemma SuffixKept(a: string, s: string)
    ensures |a + s| >= |s| && (a + s)[|a + s| - |s|..] == s
  {
    assert (a + s)[|a|..] == s;
  }

  /** A prefix of `s` is found at 0, so replacing it keeps the rest of `s`. */
  lemma ReplaceFirstPrefix(head: string, rest: string, rep: string)
    ensures ReplaceFirst(head + rest, head, rep) == rep + rest
  {
    var s := head + rest;
    assert s[0..|head|] == head;
    FindFromIs(s, head, 0, 0);
    assert s[|head|..] == rest;
  }

  /** The concatenation of a list of sequences; on strings,
      `Array.prototype.join('')`. */
  function Concat<T>(parts: seq<seq<T>>): seq<T> {
    if parts == [] then [] else parts[0] + Concat(parts[1..])
  }

  lemma ConcatAppend<T>(a: seq<seq<T>>, b: seq<seq<T>>)
    ensures Concat(a + b) == Concat(a) + Concat(b)
  {
    if a == [] {
      assert a + b == b;
    } else {
      assert (a + b)[1..] == a[1..] + b;
      ConcatAppend(a[1..], b);
    }
  }
}
