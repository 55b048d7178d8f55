/**
 * The co-author helpers that `done` uses for the squash message: the
 * message block listing the co-authors, the in-place sort by length, the
 * removal of duplicates, and the aggregate that puts them together for
 * the authors of the wip commits. Only their tests fix their behaviour.
 */
module Coauthors {
  import opened GoStrings
  import opened Sequences

  /** An author as git prints it: `Name <email>`. */
  type Author = string

  // Written in short pieces so that the verifier can see that neither holds a newline.
  const Comment1: string := "# automatically " + "added all " + "co-authors " + "from WIP commits"
  const Comment2: string := "# add missing " + "co-authors " + "manually"

  lemma CommentsHaveNoNewline()
    ensures '\n' !in Comment1 && '\n' !in Comment2
  {
  }

  /** Two empty lines and the two comment lines that open the block. */
  const Header: string := "\n\n" + Comment1 + "\n" + Comment2 + "\n"

  const LinePrefix: string := "Co-authored-by: "

  /** The trailer line for one author, without its newline. */
  function CoauthorLine(a: Author): string {
    LinePrefix + a
  }

  lemma LineHasNoNewline(a: Author)
    requires '\n' !in a
    ensures '\n' !in CoauthorLine(a)
  {
    assert '\n' !in LinePrefix;
  }

  /** The trailer lines for `authors`, in order, each newline-terminated. */
  function Trailers(authors: seq<Author>): (r: string)
    ensures r == [] || r[|r| - 1] == '\n'
  {
    if authors == [] then ""
    else Trailers(authors[..|authors| - 1]) + CoauthorLine(authors[|authors| - 1]) + "\n"
  }

  /** createCommitMessage: the header, then one `Co-authored-by:` line per author. */
  function CreateCommitMessage(authors: seq<Author>): (m: string)
    ensures HasPrefix(m, Header) && m[|m| - 1] == '\n'
  {
    Header + Trailers(authors)
  }

  /** The lines of the block after the header: one trailer per author, in input order. */
  function TrailerLines(authors: seq<Author>): (r: seq<string>)
    ensures |r| == |authors|
    ensures forall i :: 0 <= i < |authors| ==> r[i] == CoauthorLine(authors[i])
  {
    if authors == [] then []
    else TrailerLines(authors[..|authors| - 1]) + [CoauthorLine(authors[|authors| - 1])]
  }

  /** The lines of the header before its final newline: two empty lines and the two comments. */
  lemma HeaderLines()
    ensures Header == Header[..|Header| - 1] + "\n"
    ensures Split(Header[..|Header| - 1], "\n") == ["", "", Comment1, Comment2]
  {
    CommentsHaveNoNewline();
    var h0 := "\n\n" + Comment1 + "\n" + Comment2;
    assert Header == h0 + "\n";
    assert Header[..|Header| - 1] == h0;
    SplitBeforeLast("", '\n', "");
    assert "" + ['\n'] + "" == "\n";
    SplitBeforeLast("\n", '\n', Comment1);
    assert "\n" + ['\n'] + Comment1 == "\n\n" + Comment1;
    SplitBeforeLast("\n\n" + Comment1, '\n', Comment2);
    assert "\n\n" + Comment1 + ['\n'] + Comment2 == h0;
    assert Split("", "\n") == [""];
  }

  /**
   * Read back line by line, the message is the header's lines followed by
   * exactly one trailer per author, in input order (for authors without a
   * newline, which git does not allow in names or emails).
   */
  lemma CommitMessageLines(authors: seq<Author>)
    requires forall i :: 0 <= i < |authors| ==> '\n' !in authors[i]
    ensures Split(CreateCommitMessage(authors), "\n") == ["", "", Comment1, Comment2] + TrailerLines(authors) + [""]
  {
    HeaderLines();
    TrailersSplit(Header[..|Header| - 1], authors);
  }

  /** After a text ending in a newline, the trailers add one line per author. */
  lemma TrailersSplit(h0: string, authors: seq<Author>)
    requires forall i :: 0 <= i < |authors| ==> '\n' !in authors[i]
    ensures Split(h0 + "\n" + Trailers(authors), "\n") == Split(h0, "\n") + TrailerLines(authors) + [""]
  {
    PrefixedLines(h0, authors);
    TrailersAsPrefixed(authors);
    AppendLine(h0, Prefixed(authors), "", Split(h0, "\n") + TrailerLines(authors));
    Regroup(h0, Trailers(authors), Prefixed(authors));
  }

  lemma Regroup(h0: string, t: string, p: string)
    requires "\n" + t == p + "\n"
    ensures h0 + "\n" + t == h0 + (p + ['\n'] + "")
  {
    assert h0 + "\n" + t == h0 + ("\n" + t);
  }

  /** The trailer lines, each preceded instead of followed by a newline. */
  function Prefixed(authors: seq<Author>): (r: string)
    ensures r == [] || r[0] == '\n'
  {
    if authors == [] then ""
    else Prefixed(authors[..|authors| - 1]) + ['\n'] + CoauthorLine(authors[|authors| - 1])
  }

  lemma {:induction false} TrailersAsPrefixed(authors: seq<Author>)
    ensures "\n" + Trailers(authors) == Prefixed(authors) + "\n"
    decreases |authors|
  {
    if authors != [] {
      var before := authors[..|authors| - 1];
      var line := CoauthorLine(authors[|authors| - 1]);
      TrailersAsPrefixed(before);
      calc {
        "\n" + Trailers(authors);
        "\n" + (Trailers(before) + line + "\n");
        ("\n" + Trailers(before)) + line + "\n";
        (Prefixed(before) + "\n") + line + "\n";
        (Prefixed(before) + ['\n'] + line) + "\n";
        Prefixed(authors) + "\n";
      }
    }
  }

  /** One more newline-separated line adds one more part to the split. */
  lemma AppendLine(h0: string, p: string, line: string, parts: seq<string>)
    requires '\n' !in line && Split(h0 + p, "\n") == parts
    ensures Split(h0 + (p + ['\n'] + line), "\n") == parts + [line]
  {
    SplitBeforeLast(h0 + p, '\n', line);
    assert h0 + (p + ['\n'] + line) == h0 + p + ['\n'] + line;
  }

  /** The inductive step of PrefixedLines: the last author adds the last line. */
  lemma PrefixedStep(h0: string, authors: seq<Author>)
    requires authors != [] && '\n' !in authors[|authors| - 1]
    requires Split(h0 + Prefixed(authors[..|authors| - 1]), "\n")
             == Split(h0, "\n") + TrailerLines(authors[..|authors| - 1])
    ensures Split(h0 + Prefixed(authors), "\n") == Split(h0, "\n") + TrailerLines(authors)
  {
    var before := authors[..|authors| - 1];
    var line := CoauthorLine(authors[|authors| - 1]);
    LineHasNoNewline(authors[|authors| - 1]);
    var parts := Split(h0, "\n") + TrailerLines(before);
    AppendLine(h0, Prefixed(before), line, parts);
    assert parts + [line] == Split(h0, "\n") + TrailerLines(authors);
  }

  lemma {:induction false} PrefixedLines(h0: string, authors: seq<Author>)
    requires forall i :: 0 <= i < |authors| ==> '\n' !in authors[i]
    ensures Split(h0 + Prefixed(authors), "\n") == Split(h0, "\n") + TrailerLines(authors)
    decreases |authors|
  {
    if authors == [] {
      assert h0 + Prefixed(authors) == h0;
    } else {
      PrefixedLines(h0, authors[..|authors| - 1]);
      PrefixedStep(h0, authors);
    }
  }

  /**
   * The test case of createCommitMessage. The expected text is written in
   * the pieces the constants above are made of.
   */
  lemma CreateCommitMessageExample()
    ensures CreateCommitMessage(["Alice <alice@example.com>", "Bob <bob@example.com>"])
            == "\n\n" + ("# automatically " + "added all " + "co-authors " + "from WIP commits")
               + "\n" + ("# add missing " + "co-authors " + "manually") + "\n"
               + ("Co-authored-by: " + "Alice <alice@example.com>") + "\n"
               + ("Co-authored-by: " + "Bob <bob@example.com>") + "\n"
  {
    TwoAuthorsMessage("Alice <alice@example.com>", "Bob <bob@example.com>");
  }

  /** The message for two authors: the header and their two trailer lines. */
  lemma TwoAuthorsMessage(a: Author, b: Author)
    ensures CreateCommitMessage([a, b]) == Header + CoauthorLine(a) + "\n" + CoauthorLine(b) + "\n"
  {
    assert [a, b][..1] == [a] && [a][..0] == [];
    assert Trailers([a]) == "" + CoauthorLine(a) + "\n";
  }

  // -------------------------------------------------------------- sorting

  predicate SortedByLength(s: seq<string>) {
    forall k, l :: 0 <= k < l < |s| ==> |s[k]| <= |s[l]|
  }

  /** sortByLength: sorts the slice in place by length (insertion by adjacent swaps). */
  method SortByLength(a: array<string>)
    modifies a
    ensures SortedByLength(a[..])
    ensures multiset(a[..]) == multiset(old(a[..]))
  {
    for i := 0 to a.Length
      invariant SortedByLength(a[..i])
      invariant multiset(a[..]) == multiset(old(a[..]))
    {
      InsertByLength(a, i);
    }
    assert a[..a.Length] == a[..];
  }

  /** Moves `a[i]` down into the sorted prefix `a[..i]`; the elements after it stay. */
  method InsertByLength(a: array<string>, i: nat)
    requires i < a.Length && SortedByLength(a[..i])
    modifies a
    ensures SortedByLength(a[..i + 1])
    ensures a[i + 1..] == old(a[i + 1..])
    ensures multiset(a[..]) == multiset(old(a[..]))
  {
    var j := i;
    while j > 0 && |a[j - 1]| > |a[j]|
      invariant 0 <= j <= i
      invariant multiset(a[..]) == multiset(old(a[..]))
      invariant a[i + 1..] == old(a[i + 1..])
      invariant forall k, l :: 0 <= k < l <= i && l != j ==> |a[k]| <= |a[l]|
      invariant forall k, l :: 0 <= k < j < l <= i ==> |a[k]| <= |a[l]|
    {
      SwapDown(a, j);
      j := j - 1;
    }
  }

  /** Exchanges `a[j - 1]` and `a[j]`. */
  method SwapDown(a: array<string>, j: nat)
    requires 0 < j < a.Length
    modifies a
    ensures a[..] == old(a[..])[j - 1 := old(a[j])][j := old(a[j - 1])]
    ensures multiset(a[..]) == multiset(old(a[..]))
  {
    a[j - 1], a[j] := a[j], a[j - 1];
  }

  /**
   * Two sequences sorted by length with the same elements are equal when no
   * two elements have the same length: the sort's result is then determined.
   */
  lemma {:induction false} SortedWithDistinctLengthsIsUnique(s: seq<string>, t: seq<string>)
    requires SortedByLength(s) && SortedByLength(t)
    requires multiset(s) == multiset(t)
    requires forall i, j :: 0 <= i < j < |t| ==> |t[i]| != |t[j]|
    ensures s == t
    decreases |s|
  {
    assert |s| == |multiset(s)| == |multiset(t)| == |t|;
    if s != [] {
      HeadsAgree(s, t);
      TailMultiset(s);
      TailMultiset(t);
      SortedWithDistinctLengthsIsUnique(s[1..], t[1..]);
    }
  }

  /** Two such sequences start with the same element: the shortest one. */
  lemma HeadsAgree(s: seq<string>, t: seq<string>)
    requires SortedByLength(s) && SortedByLength(t) && s != []
    requires multiset(s) == multiset(t)
    requires forall i, j :: 0 <= i < j < |t| ==> |t[i]| != |t[j]|
    ensures s[0] == t[0]
  {
    assert s[0] in multiset(t) && t[0] in multiset(s);
    var k :| 0 <= k < |t| && t[k] == s[0];
    var m :| 0 <= m < |s| && s[m] == t[0];
    assert |s[0]| <= |s[m]| && |t[0]| <= |t[k]|;
  }

  /** Dropping the first element drops one occurrence of it. */
  lemma TailMultiset(s: seq<string>)
    requires s != []
    ensures multiset(s[1..]) == multiset(s) - multiset{s[0]}
  {
    assert s == [s[0]] + s[1..];
  }

  /** The test case of sortByLength: ["aa", "b"] becomes ["b", "aa"]. */
  method SortByLengthExample() returns (r: seq<string>)
    ensures r == ["b", "aa"]
  {
    var a := new string[2];
    a[0], a[1] := "aa", "b";
    assert a[..] == ["aa", "b"];
    SortByLength(a);
    r := a[..];
    SortedExample(r);
  }

  lemma SortedExample(s: seq<string>)
    requires SortedByLength(s) && multiset(s) == multiset(["aa", "b"])
    ensures s == ["b", "aa"]
  {
    assert multiset(["aa", "b"]) == multiset(["b", "aa"]);
    SortedWithDistinctLengthsIsUnique(s, ["b", "aa"]);
  }

  // ----------------------------------------------------------- duplicates

  /** The index of the first occurrence of `x`. */
  function FirstIndex(s: seq<string>, x: string): (k: nat)
    requires x in s
    ensures k < |s| && s[k] == x
    ensures forall j :: 0 <= j < k ==> s[j] != x
  {
    if s[0] == x then 0 else 1 + FirstIndex(s[1..], x)
  }

  /** removeDuplicateValues: each value once, at the place of its first occurrence. */
  function RemoveDuplicateValues(s: seq<string>): (r: seq<string>)
    ensures Distinct(r)
    ensures forall x :: x in r <==> x in s
    ensures |r| <= |s|
  {
    if s == [] then []
    else
      var r := RemoveDuplicateValues(s[..|s| - 1]);
      var x := s[|s| - 1];
      assert s == s[..|s| - 1] + [x];
      if x in s[..|s| - 1] then r else r + [x]
  }

  /** A first occurrence in a prefix is the first occurrence in the whole sequence. */
  lemma {:induction false} FirstIndexInPrefix(s: seq<string>, n: nat, x: string)
    requires n <= |s| && x in s[..n]
    ensures FirstIndex(s, x) == FirstIndex(s[..n], x)
    decreases n
  {
    if s[0] != x {
      assert s[1..][..n - 1] == s[..n][1..];
      FirstIndexInPrefix(s[1..], n - 1, x);
    }
  }

  /** The values of `r`, all taken from `s`, come in the order of their first occurrences in `s`. */
  predicate InFirstOccurrenceOrder(s: seq<string>, r: seq<string>)
    requires forall y :: y in r ==> y in s
  {
    forall i, j :: 0 <= i < j < |r| ==> FirstIndex(s, r[i]) < FirstIndex(s, r[j])
  }

  /** The values come in the order of their first occurrences in the input. */
  lemma {:induction false} KeepsFirstOccurrenceOrder(s: seq<string>)
    ensures InFirstOccurrenceOrder(s, RemoveDuplicateValues(s))
    decreases |s|
  {
    if s != [] {
      KeepsFirstOccurrenceOrder(s[..|s| - 1]);
      var q := RemoveDuplicateValues(s);
      forall i, j | 0 <= i < j < |q| ensures FirstIndex(s, q[i]) < FirstIndex(s, q[j]) {
        OrderAfterStep(s, i, j);
      }
    }
  }

  /** One pair of the inductive step of KeepsFirstOccurrenceOrder. */
  lemma OrderAfterStep(s: seq<string>, i: nat, j: nat)
    requires s != [] && i < j < |RemoveDuplicateValues(s)|
    requires InFirstOccurrenceOrder(s[..|s| - 1], RemoveDuplicateValues(s[..|s| - 1]))
    ensures FirstIndex(s, RemoveDuplicateValues(s)[i]) < FirstIndex(s, RemoveDuplicateValues(s)[j])
  {
    var p := s[..|s| - 1];
    var r := RemoveDuplicateValues(p);
    var q := RemoveDuplicateValues(s);
    if s[|s| - 1] in p {
      assert q == r;
      OldPairOrder(s, |s| - 1, r[i], r[j]);
    } else {
      assert q == r + [s[|s| - 1]];
      if j < |r| {
        OldPairOrder(s, |s| - 1, r[i], r[j]);
      } else {
        NewLastOrder(s, r[i]);
      }
    }
  }

  /** Two values of the prefix keep their order of first occurrence. */
  lemma OldPairOrder(s: seq<string>, n: nat, a: string, b: string)
    requires n <= |s| && a in s[..n] && b in s[..n]
    requires FirstIndex(s[..n], a) < FirstIndex(s[..n], b)
    ensures FirstIndex(s, a) < FirstIndex(s, b)
  {
    FirstIndexInPrefix(s, n, a);
    FirstIndexInPrefix(s, n, b);
  }

  /** A value of the prefix occurs first before a new last value. */
  lemma NewLastOrder(s: seq<string>, a: string)
    requires s != [] && a in s[..|s| - 1] && s[|s| - 1] !in s[..|s| - 1]
    ensures FirstIndex(s, a) < FirstIndex(s, s[|s| - 1])
  {
    FirstIndexInPrefix(s, |s| - 1, a);
    FirstIndexOfNewLast(s);
  }

  lemma FirstIndexOfNewLast(s: seq<string>)
    requires s != [] && s[|s| - 1] !in s[..|s| - 1]
    ensures FirstIndex(s, s[|s| - 1]) == |s| - 1
  {
  }

  /** The test case of removeDuplicateValues. */
  lemma RemoveDuplicateValuesExample()
    ensures RemoveDuplicateValues(["aa", "b", "c", "b"]) == ["aa", "b", "c"]
  {
    var s := ["aa", "b", "c", "b"];
    assert s[..3] == ["aa", "b", "c"] && s[..3][..2] == ["aa", "b"];
    assert s[..3][..2][..1] == ["aa"] && s[..3][..2][..1][..0] == [];
    assert RemoveDuplicateValues(["aa"]) == [] + ["aa"];
    assert RemoveDuplicateValues(["aa", "b"]) == ["aa"] + ["b"];
    assert RemoveDuplicateValues(["aa", "b", "c"]) == ["aa", "b"] + ["c"];
    assert "b" in s[..3];
  }

  // ------------------------------------------------------------ aggregate

  /** The finalizing user's own entries: those ending in `<email>`. */
  predicate IsOwnEntry(author: Author, email: string) {
    HasSuffix(author, "<" + email + ">")
  }

  /** The wip commit authors other than the finalizing user, in order. */
  function OtherAuthors(authors: seq<Author>, email: string): (r: seq<Author>)
    ensures forall x :: x in r <==> x in authors && !IsOwnEntry(x, email)
  {
    if authors == [] then []
    else
      var x := authors[|authors| - 1];
      assert authors == authors[..|authors| - 1] + [x];
      OtherAuthors(authors[..|authors| - 1], email) + (if IsOwnEntry(x, email) then [] else [x])
  }

  /**
   * The co-author block for the squash message: the other authors, each
   * once, sorted by length. Returns the block and the co-authors it lists.
   */
  method CoauthorsBlock(authors: seq<Author>, email: string) returns (message: string, coauthors: seq<Author>)
    ensures message == CreateCommitMessage(coauthors)
    ensures SortedByLength(coauthors) && Distinct(coauthors)
    ensures multiset(coauthors) == multiset(RemoveDuplicateValues(OtherAuthors(authors, email)))
    ensures forall x :: x in coauthors <==> x in authors && !IsOwnEntry(x, email)
  {
    var unique := RemoveDuplicateValues(OtherAuthors(authors, email));
    var a := new string[|unique|](i requires 0 <= i < |unique| => unique[i]);
    assert a[..] == unique;
    SortByLength(a);
    coauthors := a[..];
    forall x ensures x in coauthors <==> x in unique {
      assert x in multiset(coauthors) <==> x in multiset(unique);
    }
    PermutationKeepsDistinct(unique, coauthors);
    message := CreateCommitMessage(coauthors);
  }

  /** Reordering keeps a sequence free of duplicates. */
  lemma PermutationKeepsDistinct(s: seq<string>, t: seq<string>)
    requires Distinct(s) && multiset(s) == multiset(t)
    ensures Distinct(t)
  {
    forall x | x in multiset(t) ensures multiset(t)[x] == 1 {
      DistinctCountsOnce(s, x);
    }
    forall i, j | 0 <= i < j < |t| ensures t[i] != t[j] {
      if t[i] == t[j] {
        RepeatedCountsTwice(t, i, j);
        assert false;
      }
    }
  }

  /** An element at two positions occurs at least twice. */
  lemma RepeatedCountsTwice(t: seq<string>, i: nat, j: nat)
    requires i < j < |t| && t[i] == t[j]
    ensures multiset(t)[t[i]] >= 2
  {
    assert t == t[..i] + [t[i]] + t[i + 1..j] + [t[j]] + t[j + 1..];
  }

  /** In a sequence without duplicates each element occurs once. */
  lemma {:induction false} DistinctCountsOnce(s: seq<string>, x: string)
    requires Distinct(s) && x in s
    ensures multiset(s)[x] == 1
    decreases |s|
  {
    assert s == [s[0]] + s[1..];
    if s[0] == x {
      assert x !in s[1..];
    } else {
      DistinctCountsOnce(s[1..], x);
    }
  }

  /**
   * A session like the end-to-end test's: alice, local, localother, alice
   * and bob commit, and local runs done. The log lists the wip authors,
   * most recent first; local's entry is left out, alice appears once, and
   * the lengths order the rest.
   */
  method SessionCoauthors(alice: Author, bob: Author, local: Author, localother: Author, email: string)
    returns (message: string, coauthors: seq<Author>)
    requires IsOwnEntry(local, email)
    requires !IsOwnEntry(alice, email) && !IsOwnEntry(bob, email) && !IsOwnEntry(localother, email)
    requires |bob| < |alice| < |localother|
    ensures coauthors == [bob, alice, localother] && local !in coauthors
    ensures message == CreateCommitMessage(coauthors)
  {
    message, coauthors := CoauthorsBlock([bob, alice, localother, local, alice], email);
    SessionOtherAuthors(alice, bob, local, localother, email);
    SessionDuplicatesRemoved(alice, bob, localother);
    SessionSorted(coauthors, alice, bob, localother);
  }

  lemma SessionSorted(coauthors: seq<Author>, alice: Author, bob: Author, localother: Author)
    requires |bob| < |alice| < |localother|
    requires SortedByLength(coauthors) && multiset(coauthors) == multiset([bob, alice, localother])
    ensures coauthors == [bob, alice, localother]
  {
    SortedWithDistinctLengthsIsUnique(coauthors, [bob, alice, localother]);
  }

  lemma SessionOtherAuthors(alice: Author, bob: Author, local: Author, localother: Author, email: string)
    requires IsOwnEntry(local, email)
    requires !IsOwnEntry(alice, email) && !IsOwnEntry(bob, email) && !IsOwnEntry(localother, email)
    ensures OtherAuthors([bob, alice, localother, local, alice], email) == [bob, alice, localother, alice]
  {
    var log := [bob, alice, localother, local, alice];
    assert log[..4] == [bob, alice, localother, local] && log[..4][..3] == [bob, alice, localother];
    assert log[..4][..3][..2] == [bob, alice] && log[..4][..3][..2][..1] == [bob];
    assert log[..4][..3][..2][..1][..0] == [];
    assert OtherAuthors([bob], email) == [] + [bob];
    assert OtherAuthors([bob, alice], email) == [bob] + [alice];
    assert OtherAuthors([bob, alice, localother], email) == [bob, alice] + [localother];
    assert OtherAuthors([bob, alice, localother, local], email) == [bob, alice, localother] + [];
  }

  lemma SessionDuplicatesRemoved(alice: Author, bob: Author, localother: Author)
    requires |bob| < |alice| < |localother|
    ensures RemoveDuplicateValues([bob, alice, localother, alice]) == [bob, alice, localother]
  {
    var others := [bob, alice, localother, alice];
    assert others[..3] == [bob, alice, localother] && others[..3][..2] == [bob, alice];
    assert others[..3][..2][..1] == [bob] && others[..3][..2][..1][..0] == [];
    assert RemoveDuplicateValues([bob]) == [] + [bob];
    assert RemoveDuplicateValues([bob, alice]) == [bob] + [alice];
    assert RemoveDuplicateValues([bob, alice, localother]) == [bob, alice] + [localother];
    assert alice in others[..3];
  }

  /** The end-to-end test's session, with its authors and the finalizing user's email. */
  method StartDoneCoauthorsExample() returns (message: string, coauthors: seq<Author>)
    ensures coauthors == [Bob, Alice, LocalOther]
    ensures message == CreateCommitMessage([Bob, Alice, LocalOther])
  {
    OwnEntryOfLocal();
    OtherEntries();
    message, coauthors := SessionCoauthors(Alice, Bob, Local, LocalOther, "local@example.com");
  }

  const Alice: Author := "alice <alice@example.com>"
  const Bob: Author := "bob <bob@example.com>"
  const Local: Author := "local <local@example.com>"
  const LocalOther: Author := "localother <localother@example.com>"

  lemma OwnEntryOfLocal()
    ensures IsOwnEntry(Local, "local@example.com")
  {
    assert Local[|Local| - 19..] == "<" + "local@example.com" + ">";
  }

  lemma OtherEntries()
    ensures !IsOwnEntry(Alice, "local@example.com") && !IsOwnEntry(Bob, "local@example.com")
    ensures !IsOwnEntry(LocalOther, "local@example.com")
  {
    var own := "<" + "local@example.com" + ">";
    assert |own| == 19 && own[0] == '<' && own[1] == 'l';
    assert Alice[|Alice| - 19..][1] == 'a';
    assert Bob[|Bob| - 19..][0] == 'b';
    assert LocalOther[|LocalOther| - 19..][0] == 'l';
  }
}
