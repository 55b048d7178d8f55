/**
 * The turn-rotation predictor `FindNextTypist(authors, self)`: from the
 * authors of the last commits, most recent first, it predicts who types
 * next and reports the last completed round of typists. Only its tests
 * fix its behaviour; the model is the scan they pin down: the current
 * user's own latest commits are skipped, the distinct authors up to the
 * current user's previous commit form the round, and a newcomer seen after
 * that round, within as many distinct names as the round has, takes
 * precedence over the round's longest-waiting member.
 */
module FindNext {
  import opened Sequences

  /** The predicted next typist ("" for none) and the history of the last round. */
  datatype Prediction = Prediction(next: string, history: seq<string>)

  /** The first index at or after `i` whose author is not `self`, or the end. */
  function SkipSelf(authors: seq<string>, self: string, i: nat): (j: nat)
    requires i <= |authors|
    ensures i <= j <= |authors|
    ensures forall k :: i <= k < j ==> authors[k] == self
    ensures j < |authors| ==> authors[j] != self
    decreases |authors| - i
  {
    if i == |authors| || authors[i] != self then i else SkipSelf(authors, self, i + 1)
  }

  /**
   * The round: the distinct authors from index `i` on, in order of first
   * occurrence, up to the next commit of `self` (the round closes there)
   * or the end of the list (the round stays open). Returns the round and
   * the index where the scan stopped. What the round holds is stated by
   * ScanRoundStops, ScanRoundCovers, ScanRoundDistinct and ScanRoundMembers.
   */
  function ScanRound(authors: seq<string>, self: string, i: nat, round: seq<string>): (r: (seq<string>, nat))
    requires i <= |authors|
    ensures i <= r.1 <= |authors|
    decreases |authors| - i
  {
    if i == |authors| || authors[i] == self then (round, i)
    else if authors[i] in round then ScanRound(authors, self, i + 1, round)
    else ScanRound(authors, self, i + 1, round + [authors[i]])
  }

  /** The scan stops at the next commit of `self`, or at the end, and passes no commit of `self`. */
  lemma {:induction false} ScanRoundStops(authors: seq<string>, self: string, i: nat, round: seq<string>)
    requires i <= |authors|
    ensures var r := ScanRound(authors, self, i, round);
            && (r.1 < |authors| ==> authors[r.1] == self)
            && forall k :: i <= k < r.1 ==> authors[k] != self
    decreases |authors| - i
  {
    if i == |authors| || authors[i] == self {
    } else if authors[i] in round {
      ScanRoundStops(authors, self, i + 1, round);
    } else {
      ScanRoundStops(authors, self, i + 1, round + [authors[i]]);
    }
  }

  /** The round keeps what it started with and takes in every author the scan passes. */
  lemma {:induction false} ScanRoundCovers(authors: seq<string>, self: string, i: nat, round: seq<string>)
    requires i <= |authors|
    ensures var r := ScanRound(authors, self, i, round);
            && (forall x :: x in round ==> x in r.0)
            && forall k :: i <= k < r.1 ==> authors[k] in r.0
    decreases |authors| - i
  {
    if i == |authors| || authors[i] == self {
    } else if authors[i] in round {
      ScanRoundCovers(authors, self, i + 1, round);
    } else {
      var next := round + [authors[i]];
      ScanRoundCovers(authors, self, i + 1, next);
      assert authors[i] in next;
    }
  }

  /** The round lists each author once and never `self`. */
  lemma {:induction false} ScanRoundDistinct(authors: seq<string>, self: string, i: nat, round: seq<string>)
    requires i <= |authors|
    requires Distinct(round) && self !in round
    ensures var r := ScanRound(authors, self, i, round);
            Distinct(r.0) && self !in r.0
    decreases |authors| - i
  {
    if i == |authors| || authors[i] == self {
    } else if authors[i] in round {
      ScanRoundDistinct(authors, self, i + 1, round);
    } else {
      ScanRoundDistinct(authors, self, i + 1, round + [authors[i]]);
    }
  }

  /** The round holds nothing but what it started with and the authors the scan passed. */
  lemma {:induction false} ScanRoundMembers(authors: seq<string>, self: string, i: nat, round: seq<string>)
    requires i <= |authors|
    ensures var r := ScanRound(authors, self, i, round);
            forall x :: x in r.0 ==> x in round || x in authors[i..r.1]
    decreases |authors| - i
  {
    if i == |authors| || authors[i] == self {
    } else {
      var next := if authors[i] in round then round else round + [authors[i]];
      ScanRoundMembers(authors, self, i + 1, next);
      var r := ScanRound(authors, self, i + 1, next);
      forall x | x in r.0 ensures x in round || x in authors[i..r.1] {
        if x !in round {
          if x in next {
            assert x == authors[i] == authors[i..r.1][0];
          } else {
            SliceMemberWidens(authors, i, i + 1, r.1, x);
          }
        }
      }
    }
  }

  lemma SliceMemberWidens(s: seq<string>, lo: nat, mid: nat, hi: nat, x: string)
    requires lo <= mid <= hi <= |s| && x in s[mid..hi]
    ensures x in s[lo..hi]
  {
    var k :| mid <= k < hi && s[k] == x;
    assert s[lo..hi][k - lo] == x;
  }

  /**
   * The newcomers after a closed round: authors from index `i` on that are
   * neither in the round nor already collected, until `cap` of them are
   * collected, `self` commits again, or the list ends. What they are is
   * stated by ScanNewcomersSpec.
   */
  function ScanNewcomers(authors: seq<string>, self: string, i: nat, round: seq<string>, cap: nat,
                         newcomers: seq<string>): (r: seq<string>)
    requires i <= |authors|
    ensures |newcomers| <= |r|
    decreases |authors| - i
  {
    if |newcomers| >= cap || i == |authors| || authors[i] == self then newcomers
    else if authors[i] in round || authors[i] in newcomers then
      ScanNewcomers(authors, self, i + 1, round, cap, newcomers)
    else ScanNewcomers(authors, self, i + 1, round, cap, newcomers + [authors[i]])
  }

  lemma {:induction false} ScanNewcomersSpec(authors: seq<string>, self: string, i: nat, round: seq<string>,
                                             cap: nat, newcomers: seq<string>)
    requires i <= |authors| && |newcomers| <= cap
    requires Distinct(newcomers) && self !in newcomers
    requires forall x :: x in newcomers ==> x !in round
    ensures var r := ScanNewcomers(authors, self, i, round, cap, newcomers);
            && |r| <= cap && r[..|newcomers|] == newcomers
            && Distinct(r) && self !in r
            && forall x :: x in r ==> x !in round && (x in newcomers || x in authors[i..])
    decreases |authors| - i
  {
    if |newcomers| >= cap || i == |authors| || authors[i] == self {
    } else if authors[i] in round || authors[i] in newcomers {
      ScanNewcomersSpec(authors, self, i + 1, round, cap, newcomers);
    } else {
      var next := newcomers + [authors[i]];
      ScanNewcomersSpec(authors, self, i + 1, round, cap, next);
      var r := ScanNewcomers(authors, self, i + 1, round, cap, next);
      assert next[..|newcomers|] == newcomers;
      assert r[..|newcomers|] == r[..|next|][..|newcomers|];
    }
  }

  function Last(s: seq<string>): string
    requires s != []
  {
    s[|s| - 1]
  }

  /**
   * FindNextTypist. An open round gives its last member and no history; a
   * closed round gives its last member unless a newcomer turned up, and
   * the history is the round from oldest to newest, followed by `self`.
   * PredictsAnotherAuthor and HistoryOfClosedRound state what the prediction is.
   */
  function FindNextTypist(authors: seq<string>, self: string): (r: Prediction) {
    var start := SkipSelf(authors, self, 0);
    var scan := ScanRound(authors, self, start, []);
    var round, close := scan.0, scan.1;
    if round == [] then Prediction("", [])
    else if close == |authors| then Prediction(Last(round), [])
    else
      var newcomers := ScanNewcomers(authors, self, close + 1, round, |round|, []);
      Prediction(if newcomers == [] then Last(round) else Last(newcomers), Reversed(round) + [self])
  }

  /** Nothing is predicted when every author is `self` (the list may be empty). */
  lemma OnlySelfPredictsNothing(authors: seq<string>, self: string)
    requires forall k :: 0 <= k < |authors| ==> authors[k] == self
    ensures FindNextTypist(authors, self) == Prediction("", [])
  {
    assert SkipSelf(authors, self, 0) == |authors|;
  }

  /** What the predictor uses of the round scanned from `start`. */
  lemma RoundFacts(authors: seq<string>, self: string, start: nat)
    requires start <= |authors|
    ensures var r := ScanRound(authors, self, start, []);
            && Distinct(r.0) && self !in r.0
            && (forall x :: x in r.0 ==> x in authors)
            && (r.1 < |authors| ==> authors[r.1] == self)
            && (start < |authors| && authors[start] != self ==> authors[start] in r.0)
  {
    ScanRoundStops(authors, self, start, []);
    ScanRoundCovers(authors, self, start, []);
    ScanRoundDistinct(authors, self, start, []);
    ScanRoundMembers(authors, self, start, []);
    var r := ScanRound(authors, self, start, []);
    forall x | x in r.0 ensures x in authors {
      assert x in authors[start..r.1];
    }
  }

  /** What the predictor uses of the newcomers scanned from `i`. */
  lemma NewcomerFacts(authors: seq<string>, self: string, i: nat, round: seq<string>)
    requires i <= |authors|
    ensures var n := ScanNewcomers(authors, self, i, round, |round|, []);
            self !in n && forall x :: x in n ==> x !in round && x in authors
  {
    ScanNewcomersSpec(authors, self, i, round, |round|, []);
    var n := ScanNewcomers(authors, self, i, round, |round|, []);
    forall x | x in n ensures x in authors {
      assert x in authors[i..];
    }
  }

  /** As soon as someone else committed, the prediction is one of the other authors. */
  lemma PredictsAnotherAuthor(authors: seq<string>, self: string)
    requires exists k :: 0 <= k < |authors| && authors[k] != self
    ensures var r := FindNextTypist(authors, self); r.next != self && r.next in authors
  {
    var start := SkipSelf(authors, self, 0);
    var scan := ScanRound(authors, self, start, []);
    var round, close := scan.0, scan.1;
    RoundFacts(authors, self, start);
    assert start < |authors| && authors[start] in round;
    assert Last(round) in round;
    if close < |authors| {
      var newcomers := ScanNewcomers(authors, self, close + 1, round, |round|, []);
      NewcomerFacts(authors, self, close + 1, round);
      assert newcomers != [] ==> Last(newcomers) in newcomers;
    }
  }

  /**
   * A history is reported only for a closed round. It ends with `self`,
   * lists each author once, and starts with the predicted typist unless a
   * newcomer, absent from it, was predicted.
   */
  lemma HistoryOfClosedRound(authors: seq<string>, self: string)
    ensures var r := FindNextTypist(authors, self);
            r.history != [] ==>
              && r.history[|r.history| - 1] == self
              && (r.next == r.history[0] || r.next !in r.history)
              && Distinct(r.history)
              && forall x :: x in r.history ==> x in authors
  {
    var start := SkipSelf(authors, self, 0);
    var scan := ScanRound(authors, self, start, []);
    var round, close := scan.0, scan.1;
    if round != [] && close < |authors| {
      RoundFacts(authors, self, start);
      var newcomers := ScanNewcomers(authors, self, close + 1, round, |round|, []);
      NewcomerFacts(authors, self, close + 1, round);
      ClosedRoundPrediction(authors, self, round, newcomers);
    }
  }

  /** The prediction for a closed round, given what the two scans establish. */
  lemma ClosedRoundPrediction(authors: seq<string>, self: string, round: seq<string>, newcomers: seq<string>)
    requires round != [] && Distinct(round) && self !in round
    requires self in authors && forall x :: x in round ==> x in authors
    requires self !in newcomers && forall x :: x in newcomers ==> x !in round && x in authors
    ensures var next := if newcomers == [] then Last(round) else Last(newcomers);
            var history := Reversed(round) + [self];
            && history[|history| - 1] == self
            && (next == history[0] || next !in history)
            && Distinct(history)
            && forall x :: x in history ==> x in authors
  {
    ClosedRoundHistory(round, self);
    if newcomers != [] {
      assert Last(newcomers) in newcomers;
    }
    var history := Reversed(round) + [self];
    forall x | x in history ensures x in authors {
      assert x in round || x == self;
    }
  }

  /** The history of a closed round: its members from oldest to newest, then `self`, each once. */
  lemma ClosedRoundHistory(round: seq<string>, self: string)
    requires round != [] && Distinct(round) && self !in round
    ensures var history := Reversed(round) + [self];
            && Distinct(history) && history[0] == Last(round) && history[|history| - 1] == self
            && forall x :: x in history ==> x in round || x == self
  {
    var history := Reversed(round) + [self];
    forall i, j | 0 <= i < j < |history| ensures history[i] != history[j] {
      if j < |round| {
        assert history[i] == round[|round| - 1 - i] && history[j] == round[|round| - 1 - j];
      } else {
        assert history[i] == round[|round| - 1 - i];
      }
    }
    forall x | x in history ensures x in round || x == self {
      var k :| 0 <= k < |history| && history[k] == x;
      if k < |round| {
        assert x == round[|round| - 1 - k];
      }
    }
  }

  /**
   * Among the authors at `start..end`, most recent first, the one at `q`
   * has waited longest: `q` is its most recent commit, and every author
   * after `q` committed more recently too.
   */
  predicate WaitedLongest(authors: seq<string>, start: nat, q: nat, end: nat) {
    && start <= q < end <= |authors|
    && authors[q] !in authors[start..q]
    && forall j :: q < j < end ==> authors[j] in authors[start..q + 1]
  }

  /**
   * The last member that the scan of an open round adds is the author that
   * has waited longest, given that `p` marks the last member of `round`.
   */
  lemma {:induction false} ScanRoundWaitedLongest(authors: seq<string>, self: string, start: nat, i: nat,
                                                  round: seq<string>, p: nat)
    requires start <= p < i <= |authors|
    requires round != [] && authors[p] == Last(round)
    requires WaitedLongest(authors, start, p, i)
    requires forall x :: x in round ==> x in authors[start..p + 1]
    requires forall j :: start <= j < i ==> authors[j] in round
    ensures var r := ScanRound(authors, self, i, round);
            r.0 != [] && exists q: nat :: WaitedLongest(authors, start, q, r.1) && authors[q] == Last(r.0)
    decreases |authors| - i
  {
    if i == |authors| || authors[i] == self {
      assert WaitedLongest(authors, start, p, i);
    } else if authors[i] in round {
      assert authors[i] in authors[start..p + 1];
      ScanRoundWaitedLongest(authors, self, start, i + 1, round, p);
    } else {
      var next := round + [authors[i]];
      forall k | 0 <= k < i - start ensures authors[start..i][k] != authors[i] {
        assert authors[start..i][k] == authors[start + k] && authors[start + k] in round;
      }
      forall x | x in next ensures x in authors[start..i + 1] {
        if x in round {
          PrefixMemberWidens(authors, start, p + 1, i + 1, x);
        } else {
          assert authors[start..i + 1][i - start] == x;
        }
      }
      ScanRoundWaitedLongest(authors, self, start, i + 1, next, i);
    }
  }

  lemma PrefixMemberWidens(s: seq<string>, lo: nat, mid: nat, hi: nat, x: string)
    requires lo <= mid <= hi <= |s| && x in s[lo..mid]
    ensures x in s[lo..hi]
  {
    var k :| lo <= k < mid && s[k] == x;
    assert s[lo..hi][k - lo] == x;
  }

  /**
   * An open round: when `self` does not commit again once someone else
   * has, no history is reported and the prediction is the author who has
   * waited longest since their last commit.
   */
  lemma OpenRoundPrediction(authors: seq<string>, self: string)
    requires exists k :: 0 <= k < |authors| && authors[k] != self
    requires forall i, j :: 0 <= i < j < |authors| && authors[i] != self ==> authors[j] != self
    ensures var r := FindNextTypist(authors, self);
            && r.history == []
            && r.next != self
            && exists q: nat :: WaitedLongest(authors, SkipSelf(authors, self, 0), q, |authors|) && authors[q] == r.next
  {
    var start := SkipSelf(authors, self, 0);
    assert start < |authors|;
    var first := [authors[start]];
    assert authors[start] != self && authors[start] !in [];
    assert [] + [authors[start]] == first;
    assert ScanRound(authors, self, start, []) == ScanRound(authors, self, start + 1, first);
    assert WaitedLongest(authors, start, start, start + 1);
    assert authors[start..start + 1] == first;
    ScanRoundWaitedLongest(authors, self, start, start + 1, first, start);
    ScanRoundStops(authors, self, start, []);
    RoundFacts(authors, self, start);
    var r := ScanRound(authors, self, start, []);
    assert r.1 == |authors|;
    assert Last(r.0) in r.0;
  }

  // The cases of the predictor's tests, one lemma each.

  lemma NoCommits()
    ensures FindNextTypist([], "alice") == Prediction("", [])
  {
  }

  lemma OnFirstCommit()
    ensures FindNextTypist(["alice"], "alice") == Prediction("", [])
  {
  }

  lemma StartingWithFirstCommitterTwice()
    ensures FindNextTypist(["alice", "alice"], "alice") == Prediction("", [])
  {
  }

  lemma OnlyCurrentCommitterInList()
    ensures FindNextTypist(["alice", "alice", "alice"], "alice") == Prediction("", [])
  {
  }

  lemma CurrentCommitterAlternatingWithOneOtherPerson()
    ensures FindNextTypist(["alice", "bob", "alice", "bob", "alice"], "alice") == Prediction("bob", ["bob", "alice"])
  {
  }

  lemma CommitterFirstSeenInFirstRound()
    ensures FindNextTypist(["alice", "bob", "craig"], "alice") == Prediction("craig", [])
  {
  }

  lemma SecondCommitterFirstSeenRunningSession()
    ensures FindNextTypist(["alice", "bob", "craig", "bob"], "alice") == Prediction("craig", [])
  {
  }

  lemma CurrentCommitterCommittedBefore()
    ensures FindNextTypist(["alice", "alice", "bob", "alice"], "alice") == Prediction("bob", ["bob", "alice"])
  {
  }

  lemma ThreeCommitters()
    ensures FindNextTypist(["alice", "bob", "craig", "alice"], "alice") == Prediction("craig", ["craig", "bob", "alice"])
  {
  }

  lemma IgnoreMultipleCommitsFromSamePerson()
    ensures FindNextTypist(["alice", "bob", "craig", "craig", "alice"], "alice") == Prediction("craig", ["craig", "bob", "alice"])
  {
  }

  /** The scan shared by the last three cases: alice, then the round bob, craig, closed by alice. */
  lemma RoundOfBobAndCraig(authors: seq<string>)
    requires |authors| >= 4
    requires authors[0] == "alice" && authors[1] == "bob" && authors[2] == "craig" && authors[3] == "alice"
    ensures SkipSelf(authors, "alice", 0) == 1
    ensures ScanRound(authors, "alice", 1, []) == (["bob", "craig"], 3)
  {
    assert ScanRound(authors, "alice", 3, ["bob", "craig"]) == (["bob", "craig"], 3);
    assert "craig" !in ["bob"] && ["bob"] + ["craig"] == ["bob", "craig"];
    assert ScanRound(authors, "alice", 2, ["bob"]) == (["bob", "craig"], 3);
    assert [] + ["bob"] == ["bob"];
  }

  lemma SuggestCommitterBeforeLastCommit()
    ensures FindNextTypist(["alice", "bob", "craig", "alice", "bob", "dan"], "alice") == Prediction("dan", ["craig", "bob", "alice"])
  {
    var authors := ["alice", "bob", "craig", "alice", "bob", "dan"];
    RoundOfBobAndCraig(authors);
    assert authors[4] == "bob" && authors[5] == "dan";
    assert ScanNewcomers(authors, "alice", 6, ["bob", "craig"], 2, ["dan"]) == ["dan"];
    assert "dan" !in ["bob", "craig"] && [] + ["dan"] == ["dan"];
    assert ScanNewcomers(authors, "alice", 4, ["bob", "craig"], 2, []) == ["dan"];
    assert Reversed(["bob", "craig"]) + ["alice"] == ["craig", "bob", "alice"];
  }

  lemma SuggestCommitterBeforeLastCommitInThreshold()
    ensures FindNextTypist(["alice", "bob", "craig", "alice", "bob", "dan", "erik", "fin"], "alice") == Prediction("erik", ["craig", "bob", "alice"])
  {
    var authors := ["alice", "bob", "craig", "alice", "bob", "dan", "erik", "fin"];
    RoundOfBobAndCraig(authors);
    assert authors[4] == "bob" && authors[5] == "dan" && authors[6] == "erik";
    assert ScanNewcomers(authors, "alice", 7, ["bob", "craig"], 2, ["dan", "erik"]) == ["dan", "erik"];
    assert "erik" !in ["bob", "craig"] && "erik" !in ["dan"] && ["dan"] + ["erik"] == ["dan", "erik"];
    assert ScanNewcomers(authors, "alice", 6, ["bob", "craig"], 2, ["dan"]) == ["dan", "erik"];
    assert "dan" !in ["bob", "craig"] && [] + ["dan"] == ["dan"];
    assert ScanNewcomers(authors, "alice", 5, ["bob", "craig"], 2, []) == ["dan", "erik"];
    assert ScanNewcomers(authors, "alice", 4, ["bob", "craig"], 2, []) == ["dan", "erik"];
    assert Reversed(["bob", "craig"]) + ["alice"] == ["craig", "bob", "alice"];
  }

  lemma IgnoreCommitterBeforeLastCommitOutsideThreshold()
    ensures FindNextTypist(["alice", "bob", "craig", "alice", "craig", "bob", "alice", "fin"], "alice") == Prediction("craig", ["craig", "bob", "alice"])
  {
    var authors := ["alice", "bob", "craig", "alice", "craig", "bob", "alice", "fin"];
    RoundOfBobAndCraig(authors);
    assert ScanNewcomers(authors, "alice", 4, ["bob", "craig"], 2, []) == [];
    assert Reversed(["bob", "craig"]) + ["alice"] == ["craig", "bob", "alice"];
  }
}
