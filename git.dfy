/**
 * The pure parts of git/git.go: reading the git version, comparing
 * versions, dropping empty arguments and the hooks option.
 */
module Git {
  import opened Wrappers
  import opened Config

  datatype GitVersion = GitVersion(major: int, minor: int, patch: int)

  /** The largest Go `int` on 64-bit platforms; strconv.Atoi reports a range error above it. */
  const MaxInt: int := 0x7fff_ffff_ffff_ffff

  /** `\d` of Go's regexp syntax: an ASCII digit. */
  predicate IsDigit(c: char) {
    '0' <= c <= '9'
  }

  predicate AllDigits(s: string) {
    forall k :: 0 <= k < |s| ==> IsDigit(s[k])
  }

  /** The decimal value of a run of digits. */
  function DigitsValue(ds: string): nat
    requires AllDigits(ds)
  {
    if ds == [] then 0 else 10 * DigitsValue(ds[..|ds| - 1]) + (ds[|ds| - 1] as int - '0' as int)
  }

  /** strconv.Atoi on text the regex captured: a syntax error when empty or not all digits, a range error above MaxInt. */
  function Atoi(ds: string): (r: Option<int>)
    ensures r.Some? <==> ds != [] && AllDigits(ds) && DigitsValue(ds) <= MaxInt
    ensures r.Some? ==> 0 <= r.value <= MaxInt && r.value == DigitsValue(ds)
  {
    if ds == [] || !AllDigits(ds) || DigitsValue(ds) > MaxInt then None else Some(DigitsValue(ds))
  }

  /** The first index at or after `i` that holds a digit, or |s|; FirstDigitSpec says so. */
  function FirstDigit(s: string, i: nat): (j: nat)
    requires i <= |s|
    ensures i <= j <= |s|
    decreases |s| - i
  {
    if i == |s| || IsDigit(s[i]) then i else FirstDigit(s, i + 1)
  }

  lemma {:induction false} FirstDigitSpec(s: string, i: nat)
    requires i <= |s|
    ensures forall k :: i <= k < FirstDigit(s, i) ==> !IsDigit(s[k])
    ensures FirstDigit(s, i) < |s| ==> IsDigit(s[FirstDigit(s, i)])
    decreases |s| - i
  {
    if i < |s| && !IsDigit(s[i]) {
      FirstDigitSpec(s, i + 1);
    }
  }

  /** The end of the maximal run of digits that starts at `i`; DigitsEndSpec says so. */
  function DigitsEnd(s: string, i: nat): (j: nat)
    requires i <= |s|
    ensures i <= j <= |s|
    decreases |s| - i
  {
    if i < |s| && IsDigit(s[i]) then DigitsEnd(s, i + 1) else i
  }

  lemma {:induction false} DigitsEndSpec(s: string, i: nat)
    requires i <= |s|
    ensures forall k :: i <= k < DigitsEnd(s, i) ==> IsDigit(s[k])
    ensures DigitsEnd(s, i) < |s| ==> !IsDigit(s[DigitsEnd(s, i)])
    decreases |s| - i
  {
    if i < |s| && IsDigit(s[i]) {
      DigitsEndSpec(s, i + 1);
    }
  }

  /** The run of digits that ScanNumber and the regex read. */
  lemma DigitRun(s: string, i: nat)
    requires i <= |s|
    ensures AllDigits(s[i..DigitsEnd(s, i)])
  {
    DigitsEndSpec(s, i);
    var j := DigitsEnd(s, i);
    forall k | 0 <= k < j - i
      ensures IsDigit(s[i..j][k])
    {
      assert s[i..j][k] == s[i + k];
    }
  }

  /** At index `i` there is a dot followed by a digit: the optional group `\.(\d+)` can match there. */
  predicate DotDigitAt(s: string, i: nat) {
    i + 1 < |s| && s[i] == '.' && IsDigit(s[i + 1])
  }

  /** The capture groups of the version regex; an unmatched group is "". */
  datatype Groups = Groups(major: string, minor: string, patch: string)

  /** The greedy group `(\d+)` at index `i`. */
  function GroupAt(s: string, i: nat): string
    requires i <= |s|
  {
    s[i..DigitsEnd(s, i)]
  }

  /** The optional group `(?:\.(\d+))?` after a group that ends at `e`. */
  function OptionalGroup(s: string, e: nat): string
    requires e <= |s|
  {
    if DotDigitAt(s, e) then GroupAt(s, e + 1) else []
  }

  /** The optional patch group: present only after a present minor group. */
  function PatchGroup(s: string, e: nat): string
    requires e <= |s|
  {
    if DotDigitAt(s, e) then OptionalGroup(s, DigitsEnd(s, e + 1)) else []
  }

  /**
   * The groups `FindStringSubmatch` returns for
   * `(?:git)?(?: version )?(\d+)(?:\.(\d+)(?:\.(\d+))?)?`.
   * The leftmost match reads its major group at the first digit of the
   * string (MajorGroupAtFirstDigit); the groups are greedy, so each is a
   * maximal run of digits, and minor and patch are present only when a dot
   * and a digit follow the previous group.
   */
  function VersionGroups(s: string): Option<Groups> {
    var d := FirstDigit(s, 0);
    if d == |s| then None
    else
      var e := DigitsEnd(s, d);
      Some(Groups(GroupAt(s, d), OptionalGroup(s, e), PatchGroup(s, e)))
  }

  /**
   * ParseVersion as a value: no match leaves {0, 0, 0}; a group that Atoi
   * rejects is set to 0, and for major and minor the parse stops there.
   */
  function VersionOf(s: string): GitVersion {
    match VersionGroups(s)
    case None => GitVersion(0, 0, 0)
    case Some(g) =>
      match Atoi(g.major)
      case None => GitVersion(0, 0, 0)
      case Some(major) =>
        match Atoi(g.minor)
        case None => GitVersion(major, 0, 0)
        case Some(minor) =>
          match Atoi(g.patch)
          case None => GitVersion(major, minor, 0)
          case Some(patch) => GitVersion(major, minor, patch)
  }

  /** Skips the run of digits that starts at `i`. */
  method ScanDigits(s: string, i: nat) returns (end: nat)
    requires i <= |s|
    ensures end == DigitsEnd(s, i)
  {
    end := i;
    while end < |s| && IsDigit(s[end])
      invariant i <= end <= |s|
      invariant DigitsEnd(s, end) == DigitsEnd(s, i)
    {
      end := end + 1;
    }
  }

  /** Skips to the first digit, or to the end. */
  method SkipNonDigits(version: string) returns (d: nat)
    ensures d == FirstDigit(version, 0)
  {
    d := 0;
    while d < |version| && !IsDigit(version[d])
      invariant d <= |version|
      invariant FirstDigit(version, d) == FirstDigit(version, 0)
    {
      d := d + 1;
    }
  }

  /**
   * The hand-written scanner that stands in for `FindStringSubmatch`: it
   * finds the first digit, reads the major group and then the minor and
   * patch groups where a dot and a digit follow.
   */
  method MatchVersion(version: string) returns (matches: Option<Groups>)
    ensures matches == VersionGroups(version)
  {
    var d := SkipNonDigits(version);
    if d == |version| {
      return None;
    }
    var majorEnd := ScanDigits(version, d);
    var minor, patch := [], [];
    if DotDigitAt(version, majorEnd) {
      var minorEnd := ScanDigits(version, majorEnd + 1);
      minor := version[majorEnd + 1..minorEnd];
      if DotDigitAt(version, minorEnd) {
        var patchEnd := ScanDigits(version, minorEnd + 1);
        patch := version[minorEnd + 1..patchEnd];
      }
    }
    matches := Some(Groups(version[d..majorEnd], minor, patch));
  }

  /**
   * ParseVersion: fills the fields of the version one after the other from
   * the groups, setting a field Atoi rejects to 0 and returning early after
   * a rejected major or minor group.
   */
  method ParseVersion(version: string) returns (v: GitVersion)
    ensures v == VersionOf(version)
  {
    var matches := MatchVersion(version);
    v := GitVersion(0, 0, 0);
    if matches.Some? {
      var major := Atoi(matches.value.major);
      if major.None? {
        return;
      }
      v := v.(major := major.value);
      var minor := Atoi(matches.value.minor);
      if minor.None? {
        return;
      }
      v := v.(minor := minor.value);
      var patch := Atoi(matches.value.patch);
      if patch.Some? {
        v := v.(patch := patch.value);
      }
    }
  }

  /** The literal text the regex may read before its major group. */
  predicate LiteralPrefix(t: string) {
    t == [] || t == "git" || t == " version " || t == "git version "
  }

  /** The regex can match from index `i`, with its major group starting at `j`. */
  predicate MatchStartsAt(s: string, i: nat, j: nat) {
    i <= j < |s| && LiteralPrefix(s[i..j]) && IsDigit(s[j])
  }

  lemma LiteralPrefixHasNoDigit(t: string, k: nat)
    requires LiteralPrefix(t) && k < |t|
    ensures !IsDigit(t[k])
  {
  }

  /**
   * Every match that starts no later than the first digit reads its major
   * group at the first digit, and one such match exists; so the leftmost
   * match reads its major group there, as VersionGroups does.
   */
  lemma MajorGroupAtFirstDigit(s: string, i: nat, j: nat)
    requires FirstDigit(s, 0) < |s|
    ensures MatchStartsAt(s, FirstDigit(s, 0), FirstDigit(s, 0))
    ensures MatchStartsAt(s, i, j) && i <= FirstDigit(s, 0) ==> j == FirstDigit(s, 0)
  {
    var d := FirstDigit(s, 0);
    FirstDigitSpec(s, 0);
    assert s[d..d] == [];
    if MatchStartsAt(s, i, j) {
      forall k | i <= k < j
        ensures !IsDigit(s[k])
      {
        LiteralPrefixHasNoDigit(s[i..j], k - i);
        assert s[i..j][k - i] == s[k];
      }
    }
  }

  /** A string without digits admits no match at all. */
  lemma NoDigitNoMatch(s: string, i: nat, j: nat)
    requires FirstDigit(s, 0) == |s|
    ensures !MatchStartsAt(s, i, j)
  {
    FirstDigitSpec(s, 0);
  }

  /** GitVersion.Less: lexicographic on (major, minor, patch). */
  predicate Less(v: GitVersion, rhs: GitVersion) {
    || v.major < rhs.major
    || (v.major == rhs.major && v.minor < rhs.minor)
    || (v.major == rhs.major && v.minor == rhs.minor && v.patch < rhs.patch)
  }

  /** Lexicographic order of equally long integer sequences, as a reference. */
  predicate LexLess(a: seq<int>, b: seq<int>)
    requires |a| == |b|
  {
    |a| > 0 && (a[0] < b[0] || (a[0] == b[0] && LexLess(a[1..], b[1..])))
  }

  function Parts(v: GitVersion): seq<int> {
    [v.major, v.minor, v.patch]
  }

  lemma LessIsLexicographic(v: GitVersion, w: GitVersion)
    ensures Less(v, w) <==> LexLess(Parts(v), Parts(w))
  {
    var a, b := Parts(v), Parts(w);
    assert a[1..][1..][1..] == [] && b[1..][1..][1..] == [];
    assert LexLess(a[1..][1..], b[1..][1..]) <==> v.patch < w.patch;
    assert a[1..][1..] == [v.patch] && b[1..][1..] == [w.patch];
    assert LexLess(a[1..], b[1..]) <==> v.minor < w.minor || (v.minor == w.minor && v.patch < w.patch);
  }

  /** Less is a strict total order on versions. */
  lemma LessIsStrictTotalOrder(u: GitVersion, v: GitVersion, w: GitVersion)
    ensures !Less(v, v)
    ensures Less(u, v) && Less(v, w) ==> Less(u, w)
    ensures u != v ==> Less(u, v) || Less(v, u)
    ensures Less(u, v) ==> !Less(v, u)
  {
  }

  /** The decimal digits of `n`, as git prints a version number. */
  function Show(n: nat): (r: string)
    ensures r != [] && AllDigits(r) && DigitsValue(r) == n
  {
    if n < 10 then [('0' as int + n) as char]
    else
      var r := Show(n / 10) + [('0' as int + n % 10) as char];
      assert r[..|r| - 1] == Show(n / 10);
      r
  }

  lemma DigitsEndIs(s: string, i: nat, m: nat)
    requires i <= m <= |s| && AllDigits(s[i..m]) && (m < |s| ==> !IsDigit(s[m]))
    ensures DigitsEnd(s, i) == m
  {
    DigitsEndSpec(s, i);
    var j := DigitsEnd(s, i);
    forall k | i <= k < m
      ensures IsDigit(s[k])
    {
      assert s[i..m][k - i] == s[k];
    }
    forall k | i <= k < j
      ensures IsDigit(s[k])
    {
      assert s[i..j][k - i] == s[k];
    }
  }

  /**
   * A version string laid out as digits `a`, a dot, digits `b`, a dot and
   * digits `c`, after text without digits and before a character that is
   * not a digit, parses to the values of the three runs.
   */
  lemma GroupsAtPositions(s: string, d: nat, e: nat, f: nat, g: nat)
    requires d < e && e + 1 < f && f + 1 < g <= |s|
    requires forall k :: 0 <= k < d ==> !IsDigit(s[k])
    requires AllDigits(s[d..e]) && AllDigits(s[e + 1..f]) && AllDigits(s[f + 1..g])
    requires s[e] == '.' && s[f] == '.' && (g < |s| ==> !IsDigit(s[g]))
    ensures VersionGroups(s) == Some(Groups(s[d..e], s[e + 1..f], s[f + 1..g]))
  {
    assert s[d] == s[d..e][0];
    FirstDigitIs(s, d);
    DigitsEndIs(s, d, e);
    DottedGroupIs(s, e, f);
    DottedGroupIs(s, f, g);
  }

  /** A dot followed by a maximal run of digits is an optional group. */
  lemma DottedGroupIs(s: string, e: nat, f: nat)
    requires e + 1 < f <= |s| && s[e] == '.' && AllDigits(s[e + 1..f]) && (f < |s| ==> !IsDigit(s[f]))
    ensures DotDigitAt(s, e) && DigitsEnd(s, e + 1) == f && OptionalGroup(s, e) == s[e + 1..f]
  {
    assert s[e + 1] == s[e + 1..f][0];
    DigitsEndIs(s, e + 1, f);
  }

  /**
   * The regex reads the three runs of digits of "major.minor.patch" that
   * follows text without digits and precedes text that does not start
   * with a digit.
   */
  lemma GroupsOfParts(pre: string, a: string, b: string, c: string, post: string)
    requires FirstDigit(pre, 0) == |pre|
    requires a != [] && b != [] && c != [] && AllDigits(a) && AllDigits(b) && AllDigits(c)
    requires post == [] || !IsDigit(post[0])
    ensures VersionGroups(pre + a + "." + b + "." + c + post) == Some(Groups(a, b, c))
  {
    var s := pre + a + "." + b + "." + c + post;
    var d := |pre|;
    var e, f, g := d + |a|, d + |a| + 1 + |b|, d + |a| + 1 + |b| + 1 + |c|;
    Layout(s, pre, a, b, c, post, d, e, f, g);
    GroupsOfLaidOut(s, pre, a, b, c, post, d, e, f, g);
  }

  lemma GroupsOfLaidOut(s: string, pre: string, a: string, b: string, c: string, post: string,
                        d: nat, e: nat, f: nat, g: nat)
    requires FirstDigit(pre, 0) == |pre|
    requires a != [] && b != [] && c != [] && AllDigits(a) && AllDigits(b) && AllDigits(c)
    requires post == [] || !IsDigit(post[0])
    requires d == |pre| && e == d + |a| && f == e + 1 + |b| && g == f + 1 + |c| && g <= |s|
    requires s[..d] == pre && s[d..e] == a && s[e] == '.' && s[e + 1..f] == b && s[f] == '.'
    requires s[f + 1..g] == c && s[g..] == post
    ensures VersionGroups(s) == Some(Groups(a, b, c))
  {
    NoDigitBefore(s, pre);
    assert g < |s| ==> s[g] == post[0];
    GroupsAtPositions(s, d, e, f, g);
  }

  lemma NoDigitBefore(s: string, pre: string)
    requires FirstDigit(pre, 0) == |pre| && |pre| <= |s| && s[..|pre|] == pre
    ensures forall k :: 0 <= k < |pre| ==> !IsDigit(s[k])
  {
    FirstDigitSpec(pre, 0);
    forall k | 0 <= k < |pre|
      ensures !IsDigit(s[k])
    {
      assert s[k] == pre[k];
    }
  }

  lemma VersionOfParts(pre: string, a: string, b: string, c: string, post: string)
    requires FirstDigit(pre, 0) == |pre|
    requires a != [] && b != [] && c != [] && AllDigits(a) && AllDigits(b) && AllDigits(c)
    requires DigitsValue(a) <= MaxInt && DigitsValue(b) <= MaxInt && DigitsValue(c) <= MaxInt
    requires post == [] || !IsDigit(post[0])
    ensures VersionOf(pre + a + "." + b + "." + c + post) == GitVersion(DigitsValue(a), DigitsValue(b), DigitsValue(c))
  {
    GroupsOfParts(pre, a, b, c, post);
  }

  /**
   * Whatever text without digits precedes "major.minor.patch", and whatever
   * follows it that does not start with a digit, ParseVersion reads the
   * three numbers back.
   */
  lemma VersionOfPrinted(pre: string, v: GitVersion, post: string)
    requires FirstDigit(pre, 0) == |pre|
    requires 0 <= v.major <= MaxInt && 0 <= v.minor <= MaxInt && 0 <= v.patch <= MaxInt
    requires post == [] || !IsDigit(post[0])
    ensures VersionOf(pre + Show(v.major) + "." + Show(v.minor) + "." + Show(v.patch) + post) == v
  {
    VersionOfParts(pre, Show(v.major), Show(v.minor), Show(v.patch), post);
  }

  /** Where the parts of an assembled version string sit. */
  lemma Layout(s: string, pre: string, a: string, b: string, c: string, post: string,
               d: nat, e: nat, f: nat, g: nat)
    requires s == pre + a + "." + b + "." + c + post
    requires d == |pre| && e == d + |a| && f == e + 1 + |b| && g == f + 1 + |c|
    ensures g <= |s|
    ensures s[..d] == pre && s[d..e] == a && s[e] == '.' && s[e + 1..f] == b && s[f] == '.'
    ensures s[f + 1..g] == c && s[g..] == post
  {
    var p5 := pre + a + "." + b + "." + c;
    assert s[..g] == p5 && s[g..] == post;
    var p4 := pre + a + "." + b + ".";
    assert p5[..f + 1] == p4 && p5[f + 1..] == c;
    var p3 := pre + a + "." + b;
    assert p4[..f] == p3 && p4[f] == '.';
    var p2 := pre + a + ".";
    assert p3[..e + 1] == p2 && p3[e + 1..] == b;
    var p1 := pre + a;
    assert p2[..e] == p1 && p2[e] == '.';
    assert p1[..d] == pre && p1[d..] == a;
  }

  lemma SliceIs(s: string, i: nat, t: string)
    requires i + |t| <= |s|
    requires forall k :: 0 <= k < |t| ==> s[i + k] == t[k]
    ensures s[i..i + |t|] == t
  {
  }

  lemma FirstDigitIs(s: string, d: nat)
    requires d < |s| && IsDigit(s[d]) && forall k :: 0 <= k < d ==> !IsDigit(s[k])
    ensures FirstDigit(s, 0) == d
  {
    FirstDigitSpec(s, 0);
  }

  /** The version in the test data of the source, as git for Windows prints it. */
  lemma WindowsVersionString()
    ensures VersionOf("git version 2.38.1.windows.1") == GitVersion(2, 38, 1)
  {
    WindowsVersionLayout();
    GitVersionPrefixHasNoDigit();
    assert DigitsValue("2") == 2 && DigitsValue("38") == 38 && DigitsValue("1") == 1;
    VersionOfParts("git version ", "2", "38", "1", ".windows.1");
  }

  lemma WindowsVersionLayout()
    ensures "git version 2.38.1.windows.1" == "git version " + "2" + "." + "38" + "." + "1" + ".windows.1"
  {
  }

  lemma GitVersionPrefixHasNoDigit()
    ensures FirstDigit("git version ", 0) == 12
  {
    FirstDigitSpec("git version ", 0);
  }

  /** The minimum the tool accepts. */
  lemma MinimumVersionString()
    ensures VersionOf("2.13.0") == GitVersion(2, 13, 0)
  {
    var s := "2.13.0";
    assert s == "" + "2" + "." + "13" + "." + "0" + "";
    assert DigitsValue("2") == 2 && DigitsValue("13") == 13 && DigitsValue("0") == 0;
    VersionOfParts("", "2", "13", "0", "");
  }

  lemma GroupsOfMajor(a: string)
    requires a != [] && AllDigits(a)
    ensures VersionGroups(a) == Some(Groups(a, [], []))
  {
    FirstDigitIs(a, 0);
    assert a[0..|a|] == a;
    DigitsEndIs(a, 0, |a|);
  }

  lemma GroupsOfMajorMinor(s: string, a: string, b: string)
    requires a != [] && b != [] && AllDigits(a) && AllDigits(b)
    requires |s| == |a| + 1 + |b| && s[..|a|] == a && s[|a|] == '.' && s[|a| + 1..] == b
    ensures VersionGroups(s) == Some(Groups(a, b, []))
  {
    assert s[0] == a[0] && s[|a| + 1] == b[0];
    assert s[0..|a|] == a && s[|a| + 1..|s|] == b;
    FirstDigitIs(s, 0);
    DigitsEndIs(s, 0, |a|);
    DigitsEndIs(s, |a| + 1, |s|);
  }

  /** Where the parts of "major.minor" sit. */
  lemma ShortLayout(a: string, b: string)
    ensures var s := a + "." + b;
      |s| == |a| + 1 + |b| && s[..|a|] == a && s[|a|] == '.' && s[|a| + 1..] == b
  {
    var s := a + "." + b;
    assert s[..|a| + 1] == a + "." && (a + ".")[..|a|] == a;
  }

  /** The forms "x" and "x.y" are accepted, with the missing parts 0. */
  lemma ShortVersionStrings(x: nat, y: nat)
    requires x <= MaxInt && y <= MaxInt
    ensures VersionOf(Show(x)) == GitVersion(x, 0, 0)
    ensures VersionOf(Show(x) + "." + Show(y)) == GitVersion(x, y, 0)
  {
    GroupsOfMajor(Show(x));
    ShortLayout(Show(x), Show(y));
    GroupsOfMajorMinor(Show(x) + "." + Show(y), Show(x), Show(y));
  }

  /** A version string without digits parses to {0, 0, 0}. */
  lemma NoDigitsParsesToZero(s: string)
    requires forall k :: 0 <= k < |s| ==> !IsDigit(s[k])
    ensures VersionOf(s) == GitVersion(0, 0, 0)
  {
    FirstDigitSpec(s, 0);
  }

  /** deleteEmptyStrings, as a value: the non-empty entries in order. */
  function NonEmptyEntries(s: seq<string>): seq<string> {
    if s == [] then []
    else NonEmptyEntries(s[..|s| - 1]) + (if s[|s| - 1] != [] then [s[|s| - 1]] else [])
  }

  /** deleteEmptyStrings: appends every non-empty entry to the result. */
  method DeleteEmptyStrings(s: seq<string>) returns (r: seq<string>)
    ensures r == NonEmptyEntries(s)
  {
    r := [];
    for i := 0 to |s|
      invariant r == NonEmptyEntries(s[..i])
    {
      assert s[..i + 1][..i] == s[..i];
      if s[i] != [] {
        r := r + [s[i]];
      }
    }
    assert s[..|s|] == s;
  }

  /** Dropping empty entries commutes with concatenation: the order is kept. */
  lemma {:induction false} NonEmptyEntriesConcat(a: seq<string>, b: seq<string>)
    ensures NonEmptyEntries(a + b) == NonEmptyEntries(a) + NonEmptyEntries(b)
    decreases |b|
  {
    if b != [] {
      var b' := b[..|b| - 1];
      assert (a + b)[..|a + b| - 1] == a + b';
      NonEmptyEntriesConcat(a, b');
    } else {
      assert a + b == a;
    }
  }

  /** Every non-empty entry is kept as often as it occurs, and no empty one. */
  lemma {:induction false} NonEmptyEntriesCount(s: seq<string>, x: string)
    ensures multiset(NonEmptyEntries(s))[x] == if x == [] then 0 else multiset(s)[x]
    decreases |s|
  {
    if s != [] {
      var s' := s[..|s| - 1];
      NonEmptyEntriesCount(s', x);
      assert s == s' + [s[|s| - 1]];
    }
  }

  /** HooksOption: "" when hooks run, "--no-verify" otherwise. */
  function HooksOption(c: Configuration): string {
    if c.gitHooksEnabled then "" else "--no-verify"
  }

  /**
   * A push through RunWithoutEmptyStrings: with hooks enabled the empty
   * hooks option disappears, otherwise `--no-verify` is passed.
   */
  lemma PushArgumentsWithHooksOption(c: Configuration, remote: string, branch: string)
    requires remote != [] && branch != []
    ensures NonEmptyEntries(["push", HooksOption(c), remote, branch]) ==
              if c.gitHooksEnabled then ["push", remote, branch] else ["push", "--no-verify", remote, branch]
  {
    var h := HooksOption(c);
    NonEmptyEntriesConcat(["push", h], [remote, branch]);
    NonEmptyEntriesConcat(["push"], [h]);
    NonEmptyEntriesConcat([remote], [branch]);
    assert ["push", h] + [remote, branch] == ["push", h, remote, branch];
    assert ["push"] + [h] == ["push", h];
    assert [remote] + [branch] == [remote, branch];
    assert NonEmptyEntries(["push"]) == ["push"];
    assert NonEmptyEntries([remote]) == [remote] && NonEmptyEntries([branch]) == [branch];
  }
}
