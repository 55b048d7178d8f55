/**
 * The functions of Go's `strings` package that the tool relies on, over
 * `string` = `seq<char>`. Each one follows the Go definition:
 * leftmost, non-overlapping matches for Index, Split, Count and
 * ReplaceAll; the white-space set of `unicode.IsSpace` for TrimSpace.
 */
module GoStrings {

  /** `sub` occurs in `s` starting at index `k`. */
  predicate OccursAt(s: string, sub: string, k: int) {
    0 <= k && k + |sub| <= |s| && s[k..k + |sub|] == sub
  }

  /** The first index at or after `k` where `sub` occurs in `s`, or -1. */
  function IndexFrom(s: string, sub: string, k: nat): (r: int)
    requires k <= |s|
    ensures r == -1 || (k <= r && OccursAt(s, sub, r))
    ensures r == -1 ==> forall j :: k <= j ==> !OccursAt(s, sub, j)
    ensures r != -1 ==> forall j :: k <= j < r ==> !OccursAt(s, sub, j)
    decreases |s| - k
  {
    if k + |sub| > |s| then -1
    else if s[k..k + |sub|] == sub then k
    else IndexFrom(s, sub, k + 1)
  }

  /** strings.Index: the first occurrence of `sub` in `s`, or -1. */
  function Index(s: string, sub: string): (r: int)
    ensures r == -1 || OccursAt(s, sub, r)
    ensures r == -1 <==> forall j :: !OccursAt(s, sub, j)
    ensures forall j :: j < r ==> !OccursAt(s, sub, j)
  {
    IndexFrom(s, sub, 0)
  }

  /** strings.Contains. */
  predicate Contains(s: string, sub: string) {
    Index(s, sub) >= 0
  }

  lemma ContainsIff(s: string, sub: string, k: int)
    ensures OccursAt(s, sub, k) ==> Contains(s, sub)
  {
  }

  /** The last index at or before `k` where `sub` occurs in `s`, or -1. */
  function LastIndexAtOrBefore(s: string, sub: string, k: int): (r: int)
    ensures r == -1 || (r <= k && OccursAt(s, sub, r))
    ensures forall j :: r < j <= k ==> !OccursAt(s, sub, j)
    decreases k + 1
  {
    if k < 0 then -1
    else if OccursAt(s, sub, k) then k
    else LastIndexAtOrBefore(s, sub, k - 1)
  }

  /** strings.LastIndex: the last occurrence of `sub` in `s`, or -1. */
  function LastIndex(s: string, sub: string): (r: int)
    ensures r == -1 || OccursAt(s, sub, r)
    ensures r == -1 <==> !Contains(s, sub)
    ensures forall j :: r < j ==> !OccursAt(s, sub, j)
  {
    LastIndexAtOrBefore(s, sub, |s|)
  }

  /** strings.HasPrefix. */
  predicate HasPrefix(s: string, prefix: string) {
    |prefix| <= |s| && s[..|prefix|] == prefix
  }

  /** strings.HasSuffix. */
  predicate HasSuffix(s: string, suffix: string) {
    |suffix| <= |s| && s[|s| - |suffix|..] == suffix
  }

  /** unicode.IsSpace: the Latin-1 spaces and the other White_Space code points. */
  predicate IsSpace(c: char) {
    || c == '\t' || c == '\n' || c == '\U{0B}' || c == '\U{0C}' || c == '\r' || c == ' '
    || c == '\U{85}' || c == '\U{A0}' || c == '\U{1680}'
    || ('\U{2000}' <= c <= '\U{200A}')
    || c == '\U{2028}' || c == '\U{2029}' || c == '\U{202F}' || c == '\U{205F}' || c == '\U{3000}'
  }

  /** No character of `s` is white space. */
  predicate NoSpace(s: string) {
    forall k :: 0 <= k < |s| ==> !IsSpace(s[k])
  }

  /** `s` holds a character that is not white space. */
  predicate HasVisible(s: string) {
    exists k :: 0 <= k < |s| && !IsSpace(s[k])
  }

  lemma NoSpaceConcat(a: string, b: string)
    requires NoSpace(a) && NoSpace(b)
    ensures NoSpace(a + b)
  {
  }

  /** `s` neither starts nor ends with white space. */
  predicate IsTrimmed(s: string) {
    s == [] || (!IsSpace(s[0]) && !IsSpace(s[|s| - 1]))
  }

  /** The first index at or after `i` that does not hold white space (or |s|). */
  function FirstNonSpace(s: string, i: nat): (j: nat)
    requires i <= |s|
    ensures i <= j <= |s|
    ensures forall k :: i <= k < j ==> IsSpace(s[k])
    ensures j < |s| ==> !IsSpace(s[j])
    decreases |s| - i
  {
    if i == |s| || !IsSpace(s[i]) then i else FirstNonSpace(s, i + 1)
  }

  /** The end of `s[lo..j]` once its trailing white space is dropped. */
  function EndOfNonSpace(s: string, lo: nat, j: nat): (e: nat)
    requires lo <= j <= |s|
    ensures lo <= e <= j
    ensures forall k :: e <= k < j ==> IsSpace(s[k])
    ensures e > lo ==> !IsSpace(s[e - 1])
    decreases j
  {
    if j == lo || !IsSpace(s[j - 1]) then j else EndOfNonSpace(s, lo, j - 1)
  }

  function TrimStart(s: string): nat
    ensures TrimStart(s) <= |s|
  {
    FirstNonSpace(s, 0)
  }

  function TrimEnd(s: string): nat
    ensures TrimStart(s) <= TrimEnd(s) <= |s|
  {
    EndOfNonSpace(s, TrimStart(s), |s|)
  }

  /**
   * strings.TrimSpace: `s` without its leading and trailing white space.
   * The result is the slice of `s` between the first and the last
   * character that is not white space.
   */
  function TrimSpace(s: string): (r: string)
    ensures r == s[TrimStart(s)..TrimEnd(s)]
    ensures IsTrimmed(r)
    ensures IsTrimmed(s) ==> r == s
    ensures |r| <= |s| && (|r| == |s| ==> r == s)
    ensures forall k :: 0 <= k < TrimStart(s) ==> IsSpace(s[k])
    ensures forall k :: TrimEnd(s) <= k < |s| ==> IsSpace(s[k])
  {
    s[TrimStart(s)..TrimEnd(s)]
  }

  /** A character that is not white space survives TrimSpace. */
  lemma TrimKeepsVisible(s: string, k: nat)
    requires k < |s| && !IsSpace(s[k])
    ensures TrimStart(s) <= k < TrimEnd(s)
  {
  }

  lemma NoSpaceIsTrimmed(s: string)
    requires NoSpace(s)
    ensures IsTrimmed(s) && TrimSpace(s) == s
  {
  }

  /** strings.Split with a non-empty separator. */
  function Split(s: string, sep: string): (parts: seq<string>)
    requires sep != []
    ensures |parts| >= 1
    decreases |s|
  {
    var k := Index(s, sep);
    if k < 0 then [s] else [s[..k]] + Split(s[k + |sep|..], sep)
  }

  /** strings.Join. */
  function Join(parts: seq<string>, sep: string): string {
    if |parts| == 0 then []
    else if |parts| == 1 then parts[0]
    else parts[0] + sep + Join(parts[1..], sep)
  }

  /** strings.ReplaceAll with a non-empty pattern. */
  function ReplaceAll(s: string, from: string, to: string): (r: string)
    requires from != []
    ensures !Contains(s, from) ==> r == s
    decreases |s|
  {
    var k := Index(s, from);
    if k < 0 then s else s[..k] + to + ReplaceAll(s[k + |from|..], from, to)
  }

  /** strings.Count with a non-empty pattern: non-overlapping occurrences. */
  function Count(s: string, sub: string): (n: nat)
    requires sub != []
    ensures n == 0 <==> !Contains(s, sub)
    decreases |s|
  {
    var k := Index(s, sub);
    if k < 0 then 0 else 1 + Count(s[k + |sub|..], sub)
  }

  /** An occurrence in `b` is an occurrence in `a + b`, shifted by |a|. */
  lemma ContainsInSuffix(a: string, b: string, sub: string)
    requires Contains(b, sub)
    ensures Contains(a + b, sub)
  {
    var k := Index(b, sub);
    assert (a + b)[|a| + k..|a| + k + |sub|] == b[k..k + |sub|];
    assert OccursAt(a + b, sub, |a| + k);
  }

  /** An occurrence inside a prefix of `s` is an occurrence in `s`. */
  lemma OccursInPrefix(s: string, n: nat, sub: string, j: int)
    requires n <= |s| && OccursAt(s[..n], sub, j)
    ensures OccursAt(s, sub, j)
  {
    assert s[..n][j..j + |sub|] == s[j..j + |sub|];
  }

  /** Joining the parts of a split gives the string back. */
  lemma {:induction false} JoinSplit(s: string, sep: string)
    requires sep != []
    ensures Join(Split(s, sep), sep) == s
    decreases |s|
  {
    var k := Index(s, sep);
    if k >= 0 {
      var rest := s[k + |sep|..];
      var parts := Split(rest, sep);
      JoinSplit(rest, sep);
      var all := [s[..k]] + parts;
      assert Split(s, sep) == all;
      assert all[1..] == parts;
      assert Join(all, sep) == s[..k] + sep + Join(parts, sep);
      assert s[k..k + |sep|] == sep;
      assert s == s[..k] + s[k..k + |sep|] + rest;
    }
  }

  /** No part of a split holds the separator. */
  lemma {:induction false} SplitPartsLackSeparator(s: string, sep: string)
    requires sep != []
    ensures forall p | p in Split(s, sep) :: !Contains(p, sep)
    decreases |s|
  {
    var k := Index(s, sep);
    if k >= 0 {
      var rest := s[k + |sep|..];
      SplitPartsLackSeparator(rest, sep);
      if Contains(s[..k], sep) {
        var j := Index(s[..k], sep);
        OccursInPrefix(s, k, sep, j);
        assert false;
      }
      assert Split(s, sep) == [s[..k]] + Split(rest, sep);
    }
  }

  /** A split has one part more than the separator has occurrences. */
  lemma {:induction false} SplitCount(s: string, sep: string)
    requires sep != []
    ensures |Split(s, sep)| == Count(s, sep) + 1
    decreases |s|
  {
    var k := Index(s, sep);
    if k >= 0 {
      SplitCount(s[k + |sep|..], sep);
    }
  }

  /**
   * When the first occurrence of `sep` in `a + sep` is the appended one,
   * splitting `a + sep + b` yields `a` followed by the parts of `b`.
   */
  lemma SplitAtFirst(a: string, sep: string, b: string)
    requires sep != []
    requires forall k :: 0 <= k < |a| ==> !OccursAt(a + sep, sep, k)
    ensures Split(a + sep + b, sep) == [a] + Split(b, sep)
  {
    var s := a + sep + b;
    assert s[|a|..|a| + |sep|] == sep;
    assert OccursAt(s, sep, |a|);
    forall k | 0 <= k < |a|
      ensures !OccursAt(s, sep, k)
    {
      if OccursAt(s, sep, k) {
        assert (a + sep)[k..k + |sep|] == s[k..k + |sep|];
        assert OccursAt(a + sep, sep, k);
      }
    }
    assert Index(s, sep) == |a|;
    assert s[..|a|] == a;
    assert s[|a| + |sep|..] == b;
  }

  /** For a one-character separator the condition of SplitAtFirst is that `a` lacks it. */
  lemma SingleCharSeparator(a: string, c: char)
    requires c !in a
    ensures forall k :: 0 <= k < |a| ==> !OccursAt(a + [c], [c], k)
  {
    forall k | 0 <= k < |a|
      ensures !OccursAt(a + [c], [c], k)
    {
      assert (a + [c])[k..k + 1] == [a[k]];
    }
  }

  /** An occurrence starts with the first character of the pattern. */
  lemma OccurrenceStartsWith(s: string, sub: string, k: int)
    requires sub != [] && OccursAt(s, sub, k)
    ensures s[k] == sub[0]
  {
    assert s[k..k + |sub|][0] == s[k];
  }

  /** A one-character pattern occurs exactly where that character stands. */
  lemma OccursAtChar(s: string, c: char, j: int)
    ensures OccursAt(s, [c], j) <==> 0 <= j < |s| && s[j] == c
  {
    if 0 <= j < |s| {
      assert s[j..j + 1] == [s[j]];
    }
  }

  /** strings.Index of a one-character pattern is negative exactly when the character is missing. */
  lemma IndexOfMissingChar(s: string, c: char)
    ensures Index(s, [c]) < 0 <==> c !in s
  {
    if c in s {
      var j :| 0 <= j < |s| && s[j] == c;
      OccursAtChar(s, c, j);
    }
    if Index(s, [c]) >= 0 {
      OccursAtChar(s, c, Index(s, [c]));
    }
  }

  /** The first occurrence inside `a` stays the first occurrence in `a + z`. */
  lemma IndexInPrefix(a: string, z: string, sub: string)
    requires Index(a, sub) >= 0
    ensures Index(a + z, sub) == Index(a, sub)
  {
    var k := Index(a, sub);
    assert (a + z)[k..k + |sub|] == a[k..k + |sub|];
    assert OccursAt(a + z, sub, k);
    forall j | 0 <= j < k
      ensures !OccursAt(a + z, sub, j)
    {
      if OccursAt(a + z, sub, j) {
        assert (a + z)[j..j + |sub|] == a[j..j + |sub|];
        assert OccursAt(a, sub, j);
      }
    }
  }

  /** A text lacking the first character of a pattern does not contain it. */
  lemma LacksFirstChar(s: string, sub: string)
    requires sub != [] && sub[0] !in s
    ensures !Contains(s, sub)
  {
    if Contains(s, sub) {
      OccurrenceStartsWith(s, sub, Index(s, sub));
    }
  }

  /**
   * Splitting on a character that the last part lacks: the string before
   * the last separator is split on its own.
   */
  lemma {:induction false} SplitBeforeLast(a: string, c: char, b: string)
    requires c !in b
    ensures Split(a + [c] + b, [c]) == Split(a, [c]) + [b]
    decreases |a|
  {
    var s := a + [c] + b;
    var k := Index(a, [c]);
    IndexOfMissingChar(b, c);
    if k >= 0 {
      assert s == a + ([c] + b);
      IndexInPrefix(a, [c] + b, [c]);
      assert s[..k] == a[..k];
      assert s[k + 1..] == a[k + 1..] + [c] + b;
      SplitBeforeLast(a[k + 1..], c, b);
    } else {
      IndexOfMissingChar(a, c);
      SingleCharSeparator(a, c);
      SplitAtFirst(a, [c], b);
    }
  }

  /** A character missing from the text and from the replacement is missing from the result. */
  lemma {:induction false} ReplaceAllLacks(s: string, from: string, to: string, c: char)
    requires from != [] && c !in s && c !in to
    ensures c !in ReplaceAll(s, from, to)
    decreases |s|
  {
    var k := Index(s, from);
    if k >= 0 {
      var rest := s[k + |from|..];
      assert s == s[..k] + s[k..k + |from|] + rest;
      assert c !in s[..k] && c !in rest;
      ReplaceAllLacks(rest, from, to, c);
      assert ReplaceAll(s, from, to) == s[..k] + to + ReplaceAll(rest, from, to);
    }
  }

  /** No occurrence of `t` starts inside a text that lacks the first character of `t`. */
  lemma NoOccurrenceBefore(x: string, t: string, y: string)
    requires t != [] && t[0] !in x
    ensures forall j :: 0 <= j < |x| ==> !OccursAt(x + t + y, t, j)
  {
    forall j | 0 <= j < |x|
      ensures !OccursAt(x + t + y, t, j)
    {
      if OccursAt(x + t + y, t, j) {
        OccurrenceStartsWith(x + t + y, t, j);
      }
    }
  }

  /** ReplaceAll when the first occurrence follows a text `x`. */
  lemma ReplaceAllAtFirst(x: string, t: string, y: string, to: string)
    requires t != [] && t[0] !in x
    ensures ReplaceAll(x + t + y, t, to) == x + to + ReplaceAll(y, t, to)
  {
    var s := x + t + y;
    NoOccurrenceBefore(x, t, y);
    assert s[|x|..|x| + |t|] == t;
    assert OccursAt(s, t, |x|);
    assert Index(s, t) == |x|;
    assert s[..|x|] == x;
    assert s[|x| + |t|..] == y;
  }

  /**
   * Replacing a character by a marker and the marker back restores the
   * text, when the text lacks the first character of the marker.
   */
  lemma {:induction false} ReplaceAllRestores(s: string, c: char, t: string)
    requires t != [] && c !in t && t[0] !in s
    ensures ReplaceAll(ReplaceAll(s, [c], t), t, [c]) == s
    decreases |s|
  {
    var k := Index(s, [c]);
    if k >= 0 {
      OccursAtChar(s, c, k);
      var x, rest := s[..k], s[k + 1..];
      assert s == x + [c] + rest;
      assert t[0] !in x && t[0] !in rest;
      ReplaceAllRestores(rest, c, t);
      ReplaceAllAtFirst(x, t, ReplaceAll(rest, [c], t), [c]);
    } else {
      LacksFirstChar(s, t);
    }
  }

  /** Every part of a split lacks a character that the text lacks. */
  lemma {:induction false} SplitPartsLack(s: string, sep: string, c: char)
    requires sep != [] && c !in s
    ensures forall p | p in Split(s, sep) :: c !in p
    decreases |s|
  {
    var k := Index(s, sep);
    if k >= 0 {
      SplitPartsLack(s[k + |sep|..], sep, c);
      assert s == s[..k] + s[k..];
      assert Split(s, sep) == [s[..k]] + Split(s[k + |sep|..], sep);
    }
  }

  /** After replacing every occurrence of a character by text without it, the character is gone. */
  lemma {:induction false} ReplaceCharRemoves(s: string, c: char, to: string)
    requires c !in to
    ensures c !in ReplaceAll(s, [c], to)
    decreases |s|
  {
    var k := Index(s, [c]);
    if k >= 0 {
      var rest := s[k + 1..];
      forall j | 0 <= j < k
        ensures s[..k][j] != c
      {
        OccursAtChar(s, c, j);
      }
      ReplaceCharRemoves(rest, c, to);
      assert ReplaceAll(s, [c], to) == s[..k] + to + ReplaceAll(rest, [c], to);
    } else {
      IndexOfMissingChar(s, c);
    }
  }
}
