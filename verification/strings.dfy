/** String operations of the ECMAScript standard library that the page code
    relies on: String.prototype.trim, the regular-expression class \s,
    String.prototype.replace with a string pattern, and String.prototype.split
    with a one-character separator. Strings are sequences of characters. */
module Strings {
  import opened Wrappers

  /** The WhiteSpace and LineTerminator code points of ECMAScript (sections
      12.2 and 12.3 of ECMA-262). String.prototype.trim strips exactly these,
      and the regular-expression class \s matches exactly these, so one
      predicate serves both. */
  predicate IsWs(c: char) {
    // WhiteSpace: TAB, VT, FF, ZWNBSP and the Unicode category Zs
    || c == '\t' || c == '\U{000B}' || c == '\U{000C}' || c == '\U{FEFF}'
    || c == ' ' || c == '\U{00A0}' || c == '\U{1680}'
    || ('\U{2000}' <= c <= '\U{200A}')
    || c == '\U{202F}' || c == '\U{205F}' || c == '\U{3000}'
    // LineTerminator: LF, CR, LINE SEPARATOR, PARAGRAPH SEPARATOR
    || c == '\n' || c == '\r' || c == '\U{2028}' || c == '\U{2029}'
  }

  /** Every character of s is white space (vacuously true of ""). */
  predicate AllWs(s: string) {
    forall k :: 0 <= k < |s| ==> IsWs(s[k])
  }

  /** The first index at or after `from` that does not hold white space,
      or |s| when there is none. */
  function SkipWs(s: string, from: nat): (r: nat)
    requires from <= |s|
    ensures from <= r <= |s|
    decreases |s| - from
  {
    if from == |s| then |s|
    else if IsWs(s[from]) then SkipWs(s, from + 1)
    else from
  }

  /** The smallest index e <= `to` such that only white space lies in
      s[e..to]. */
  function SkipWsBack(s: string, to: nat): (e: nat)
    requires to <= |s|
    ensures e <= to
  {
    if to > 0 && IsWs(s[to - 1]) then SkipWsBack(s, to - 1) else to
  }

  lemma {:induction false} SkipWsSpec(s: string, from: nat)
    requires from <= |s|
    ensures var r := SkipWs(s, from);
            && from <= r <= |s|
            && (forall k :: from <= k < r ==> IsWs(s[k]))
            && (r < |s| ==> !IsWs(s[r]))
    decreases |s| - from
  {
    if from < |s| && IsWs(s[from]) {
      SkipWsSpec(s, from + 1);
    }
  }

  lemma {:induction false} SkipWsBackSpec(s: string, to: nat)
    requires to <= |s|
    ensures var e := SkipWsBack(s, to);
            && e <= to
            && (forall k :: e <= k < to ==> IsWs(s[k]))
            && (e > 0 ==> !IsWs(s[e - 1]))
  {
    if to > 0 && IsWs(s[to - 1]) {
      SkipWsBackSpec(s, to - 1);
    }
  }

  /** String.prototype.trim: s without its leading and trailing white
      space. */
  function Trim(s: string): string {
    var a, b := SkipWs(s, 0), SkipWsBack(s, |s|);
    if a < b then s[a..b] else []
  }

  /** JavaScript's `!s.trim()`: the trimmed string is the falsy "". */
  predicate IsBlank(s: string) {
    Trim(s) == []
  }

  /** The trimmed string is what remains of s once a maximal run of white
      space is cut from each end: it sits at some offset `a` of s, only
      white space lies outside it, and it neither starts nor ends with
      white space. */
  lemma TrimSpec(s: string)
    ensures var a, r := SkipWs(s, 0), Trim(s);
            && a + |r| <= |s| && r == s[a..a + |r|]
            && (forall k :: 0 <= k < a ==> IsWs(s[k]))
            && (forall k :: a + |r| <= k < |s| ==> IsWs(s[k]))
            && (r != [] ==> !IsWs(r[0]) && !IsWs(r[|r| - 1]))
  {
    SkipWsSpec(s, 0);
    SkipWsBackSpec(s, |s|);
  }

  /** A string is blank exactly when it consists of white space only. */
  lemma BlankIffAllWs(s: string)
    ensures IsBlank(s) <==> AllWs(s)
  {
    TrimSpec(s);
    var a := SkipWs(s, 0);
    if !IsBlank(s) {
      assert Trim(s)[0] == s[a];
    }
  }

  /** pat occurs in s starting at index k. */
  predicate OccursAt(s: string, pat: string, k: int) {
    0 <= k && k + |pat| <= |s| && s[k..k + |pat|] == pat
  }

  /** The first occurrence of pat in s at or after index `from`. */
  function IndexFrom(s: string, pat: string, from: nat): Option<nat>
    decreases |s| - from
  {
    if from + |pat| > |s| then None
    else if s[from..from + |pat|] == pat then Some(from)
    else IndexFrom(s, pat, from + 1)
  }

  /** IndexFrom finds an occurrence, and none before it; or there is none. */
  lemma {:induction false} IndexFromSpec(s: string, pat: string, from: nat)
    ensures var r := IndexFrom(s, pat, from);
            && (r.Some? ==> from <= r.value && OccursAt(s, pat, r.value))
            && (r.Some? ==> forall k :: from <= k < r.value ==> !OccursAt(s, pat, k))
            && (r.None? ==> forall k :: from <= k ==> !OccursAt(s, pat, k))
    decreases |s| - from
  {
    if from + |pat| <= |s| && s[from..from + |pat|] != pat {
      IndexFromSpec(s, pat, from + 1);
    }
  }

  /** String.prototype.indexOf, with None for the source's -1. */
  function IndexOf(s: string, pat: string): Option<nat> {
    IndexFrom(s, pat, 0)
  }

  /** pat occurs somewhere in s. */
  predicate Contains(s: string, pat: string) {
    exists k :: 0 <= k <= |s| - |pat| && OccursAt(s, pat, k)
  }

  /** String.prototype.replace with a string pattern and a replacement
      without `$` substitutions: only the FIRST occurrence is replaced. */
  function ReplaceFirst(s: string, pat: string, rep: string): (r: string)
    ensures !Contains(s, pat) ==> r == s
    ensures Contains(s, pat) ==>
              exists i :: && OccursAt(s, pat, i)
                          && (forall k :: 0 <= k < i ==> !OccursAt(s, pat, k))
                          && r == s[..i] + rep + s[i + |pat|..]
  {
    IndexFromSpec(s, pat, 0);
    match IndexOf(s, pat)
    case None => s
    case Some(i) => s[..i] + rep + s[i + |pat|..]
  }

  /** Removing the first occurrence of a suffix undoes appending it, provided
      the suffix does not occur in the original string and cannot overlap
      itself (its first character does not reappear in it). */
  lemma RemoveAppendedSuffix(f: string, pat: string)
    requires |pat| > 0 && pat[0] !in pat[1..]
    requires !Contains(f, pat)
    ensures ReplaceFirst(f + pat, pat, "") == f
  {
    var s := f + pat;
    assert OccursAt(s, pat, |f|) by { assert s[|f|..|f| + |pat|] == pat; }
    forall k | 0 <= k < |f| ensures !OccursAt(s, pat, k) {
      if OccursAt(s, pat, k) {
        if k + |pat| <= |f| {
          assert f[k..k + |pat|] == s[k..k + |pat|];
          assert OccursAt(f, pat, k);
          assert false;
        } else {
          assert false;
        }
      }
    }
    IndexFromSpec(s, pat, 0);
    assert IndexOf(s, pat) == Some(|f|);
    assert s[..|f|] == f;
  }

  /** String.prototype.join with a one-character separator. */
  function Join(parts: seq<string>, sep: char): string {
    if |parts| == 0 then []
    else if |parts| == 1 then parts[0]
    else parts[0] + [sep] + Join(parts[1..], sep)
  }

  /** String.prototype.split with a one-character separator: the pieces
      between separators, never an empty list, none containing the
      separator, and joined back together they give s again. */
  function Split(s: string, sep: char): (parts: seq<string>)
    ensures |parts| > 0
    ensures forall i :: 0 <= i < |parts| ==> sep !in parts[i]
    ensures Join(parts, sep) == s
    decreases |s|
  {
    if |s| == 0 then [[]]
    else
      var rest := Split(s[1..], sep);
      if s[0] == sep then
        assert [sep] + s[1..] == s;
        [[]] + rest
      else
        var parts := [[s[0]] + rest[0]] + rest[1..];
        assert [s[0]] + s[1..] == s;
        assert |rest| > 1 ==> rest == [rest[0]] + rest[1..] && parts[1..] == rest[1..];
        parts
  }

  /** The final element of a non-empty list (Array.prototype.pop's result). */
  function Last<T>(xs: seq<T>): T
    requires |xs| > 0
  {
    xs[|xs| - 1]
  }

  /** A suffix of t is also a suffix of h + t. */
  lemma AppendKeepsSuffix(h: string, t: string, n: nat)
    requires n <= |t|
    ensures (h + t)[|h| + |t| - n..] == t[|t| - n..]
  {
    assert (h + t)[|h|..] == t;
    assert (h + t)[|h| + |t| - n..] == (h + t)[|h|..][|t| - n..];
  }

  /** A joined list ends with its last element, preceded by the separator
      unless the list has a single element. */
  lemma {:induction false} JoinEndsWithLast(parts: seq<string>, sep: char)
    requires |parts| > 0
    ensures var s := Join(parts, sep);
            var r := Last(parts);
            && |r| <= |s| && s[|s| - |r|..] == r
            && (|parts| > 1 ==> |r| < |s| && s[|s| - |r| - 1] == sep)
    decreases |parts|
  {
    if |parts| > 1 {
      var head := parts[0] + [sep];
      var tail := Join(parts[1..], sep);
      var r := Last(parts);
      JoinEndsWithLast(parts[1..], sep);
      assert Last(parts[1..]) == r;
      assert Join(parts, sep) == head + tail;
      assert |r| <= |tail|;
      AppendKeepsSuffix(head, tail, |r|);
      var k := |head| + |tail| - |r| - 1;
      if |parts| == 2 {
        assert tail == r;
        assert (head + tail)[k] == head[|head| - 1] == sep;
      } else {
        assert |r| < |tail| && tail[|tail| - |r| - 1] == sep;
        assert (head + tail)[k] == tail[|tail| - |r| - 1];
      }
    }
  }

  /** `s.split(sep).pop()`: the text after the last separator, or all of s
      when it contains none. */
  function LastSegment(s: string, sep: char): (r: string)
    ensures |r| <= |s| && s[|s| - |r|..] == r
    ensures sep !in r
    ensures |r| == |s| || s[|s| - |r| - 1] == sep
  {
    var parts := Split(s, sep);
    JoinEndsWithLast(parts, sep);
    Last(parts)
  }
}
