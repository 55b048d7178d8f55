/**
 * The guard logic of the three session commands of mob.go: `start`, `next`
 * and `done`. Each command is a decision function over what it observes of
 * the repository (uncommitted changes, which remote branches exist, whether
 * a merge failed). It returns the git steps it would take, in order, and the
 * outcome it reports; the steps themselves are not carried out.
 */
module Lifecycle {
  import opened Config
  import opened GoStrings
  import opened Branches

  /** One git step of a command, named after what it does to the repository. */
  datatype Step =
    | Fetch                              // git fetch <remote> --prune
    | PushUpstream(base: Branch)         // create the remote base branch
    | ResetHard                          // discard uncommitted changes
    | StashPush(stash: string)           // stash uncommitted changes under a name
    | MergeFetchHead                     // git merge FETCH_HEAD --ff-only
    | JoinSession(wip: Branch)           // check out the remote wip branch and track it
    | NewSession(wip: Branch, base: Branch) // create the wip branch from the remote base and push it
    | StashPop(stash: string)            // restore the stashed changes
    | CommitWip                          // git add --all and the wip commit
    | Push(branch: Branch)               // push a branch to the remote
    | ShowNext                           // tell who is next (reads the log only)
    | Checkout(branch: Branch)
    | SquashWipCommits                   // the SquashWip rewrite of the wip history
    | MergeRemote(branch: Branch)        // fast-forward a branch to its remote-tracking branch
    | Merge(wip: Branch, squash: bool)   // merge the wip branch, --squash or --commit
    | DeleteLocal(branch: Branch)        // git branch -D
    | ResetSoft                          // git reset --soft HEAD^
    | DeleteRemote(branch: Branch)       // push --delete
    | AppendCoauthors                    // add co-authors to the squash message
    | PullFastForward                    // git pull --ff-only

  datatype Outcome =
    | Started | Finished | SessionEndedElsewhere
    | NotMobProgramming        // next/done off a wip branch: only a hint is printed
    | CleanTreeRequired        // start refuses uncommitted changes
    | RemoteWipMissing         // start --join without a remote wip branch
    | RemoteBaseMissing        // start without --create and without a remote base branch
    | UnpushedBaseCommits      // the local base branch is ahead of its remote
    | UncommittedSubdir        // the working directory is not tracked in HEAD
    | CommitMessageRequired    // next refuses to commit without a message
    | MergeConflict            // done could not merge the wip branch

  datatype Run = Run(steps: seq<Step>, outcome: Outcome)

  /** The error outcomes of `start`: it returns an error for each of them. */
  predicate IsStartError(o: Outcome) {
    o.CleanTreeRequired? || o.RemoteWipMissing? || o.RemoteBaseMissing? || o.UnpushedBaseCommits? || o.UncommittedSubdir?
  }

  /**
   * A step that changes the local working copy, the index or the local
   * branches. Fetching and creating the remote base branch leave all of
   * them as they were.
   */
  predicate ChangesWorkingCopy(s: Step) {
    !(s.Fetch? || s.PushUpstream? || s.ShowNext? || s.Push? || s.DeleteRemote?)
  }

  /** The step `s` when `taken`, else nothing. */
  function When(taken: bool, s: Step): (r: seq<Step>)
    ensures forall x :: x in r <==> taken && x == s
    ensures |r| == if taken then 1 else 0
  {
    if taken then [s] else []
  }

  /** `a` is taken at some point before `b`. */
  predicate Precedes(steps: seq<Step>, a: Step, b: Step) {
    exists i, j :: 0 <= i < j < |steps| && steps[i] == a && steps[j] == b
  }

  /**
   * isMobProgramming, for the pair that determineBranches gives for the
   * current branch: the current branch is the wip branch of the pair.
   */
  predicate OnWipBranch(current: Branch, pair: BranchPair) {
    current == pair.wip
  }

  /** What `start` observes: each field is the answer of one git query. */
  datatype StartObservations = StartObservations(
    uncommittedChanges: bool,
    remoteWipExists: bool,
    remoteBaseExists: bool,
    localBaseExists: bool,
    unpushedBaseCommits: bool,
    workingDirTracked: bool     // `git ls-tree -r HEAD ... .` printed something
  )

  /** The policy asks to stash and restore uncommitted changes. */
  predicate Includes(cfg: Configuration, obs: StartObservations) {
    obs.uncommittedChanges && cfg.handleUncommittedChanges == IncludeChanges
  }

  /**
   * The steps of `start` up to its last guard: the fetch, the creation of
   * the remote base branch when asked for, and the reset that discards
   * uncommitted changes under the DiscardChanges policy.
   */
  function Prepare(cfg: Configuration, pair: BranchPair, obs: StartObservations): (r: seq<Step>)
    ensures r != [] && r[0] == Fetch
    ensures forall x :: x in r <==>
              || x == Fetch
              || (x == PushUpstream(pair.base) && !obs.remoteBaseExists && cfg.startCreate)
              || (x == ResetHard && obs.uncommittedChanges && cfg.handleUncommittedChanges == DiscardChanges)
  {
    [Fetch] + When(!obs.remoteBaseExists && cfg.startCreate, PushUpstream(pair.base))
    + When(obs.uncommittedChanges && cfg.handleUncommittedChanges == DiscardChanges, ResetHard)
  }

  /** The step that puts `start` on the wip branch: join the remote one, or create it. */
  function SessionStep(pair: BranchPair, obs: StartObservations): Step {
    if obs.remoteWipExists then JoinSession(pair.wip) else NewSession(pair.wip, pair.base)
  }

  /**
   * The steps of `start` once every guard has passed: stash, fast-forward
   * when not yet on the wip branch, join or create the session, unstash.
   */
  function EnterSession(cfg: Configuration, current: Branch, pair: BranchPair, obs: StartObservations): (r: seq<Step>)
    ensures r != [] && (Includes(cfg, obs) ==> r[0] == StashPush(cfg.stashName) && r[|r| - 1] == StashPop(cfg.stashName))
    ensures |r| >= (if Includes(cfg, obs) then 3 else 1)
    ensures r[|r| - (if Includes(cfg, obs) then 2 else 1)] == SessionStep(pair, obs)
    ensures forall x :: x in r <==>
              || (x == StashPush(cfg.stashName) && Includes(cfg, obs))
              || (x == MergeFetchHead && !OnWipBranch(current, pair))
              || (x == JoinSession(pair.wip) && obs.remoteWipExists)
              || (x == NewSession(pair.wip, pair.base) && !obs.remoteWipExists)
              || (x == StashPop(cfg.stashName) && Includes(cfg, obs))
  {
    When(Includes(cfg, obs), StashPush(cfg.stashName))
    + When(!OnWipBranch(current, pair), MergeFetchHead)
    + [SessionStep(pair, obs)]
    + When(Includes(cfg, obs), StashPop(cfg.stashName))
  }

  /**
   * start, for the pair that determineBranches gives for the current branch:
   * the guards in the source's order, each returning an error, then the
   * session is joined (the remote wip branch exists) or created.
   */
  function Start(cfg: Configuration, current: Branch, pair: BranchPair, obs: StartObservations): (r: Run)
    ensures r.outcome == CleanTreeRequired <==>
              obs.uncommittedChanges && cfg.handleUncommittedChanges == FailWithError
    ensures r.outcome == CleanTreeRequired ==> r.steps == []
    ensures r.steps != [] ==> r.steps[0] == Fetch
    ensures r.outcome == Started || IsStartError(r.outcome)
    ensures IsStartError(r.outcome) ==> forall i :: 0 <= i < |r.steps| ==> !ChangesWorkingCopy(r.steps[i])
    ensures r.outcome == RemoteWipMissing ==> cfg.startJoin && !obs.remoteWipExists
    ensures r.outcome == RemoteBaseMissing ==> !cfg.startCreate && !obs.remoteBaseExists
    ensures r.outcome == Started ==>
              && !(cfg.startJoin && !obs.remoteWipExists)
              && forall x :: x in r.steps <==>
                   || x == Fetch
                   || (x == PushUpstream(pair.base) && !obs.remoteBaseExists)
                   || (x == ResetHard && obs.uncommittedChanges && cfg.handleUncommittedChanges == DiscardChanges)
                   || (x == StashPush(cfg.stashName) && Includes(cfg, obs))
                   || (x == MergeFetchHead && !OnWipBranch(current, pair))
                   || (x == JoinSession(pair.wip) && obs.remoteWipExists)
                   || (x == NewSession(pair.wip, pair.base) && !obs.remoteWipExists)
                   || (x == StashPop(cfg.stashName) && Includes(cfg, obs))
  {
    var unc := obs.uncommittedChanges;
    var policy := cfg.handleUncommittedChanges;
    if unc && policy == FailWithError then Run([], CleanTreeRequired)
    else if !obs.remoteWipExists && cfg.startJoin then Run([Fetch], RemoteWipMissing)
    else if !obs.remoteBaseExists && !cfg.startCreate then Run([Fetch], RemoteBaseMissing)
    else if obs.localBaseExists && obs.unpushedBaseCommits then
      Run([Fetch] + When(!obs.remoteBaseExists && cfg.startCreate, PushUpstream(pair.base)), UnpushedBaseCommits)
    else if Includes(cfg, obs) && !obs.workingDirTracked then Run(Prepare(cfg, pair, obs), UncommittedSubdir)
    else Run(Prepare(cfg, pair, obs) + EnterSession(cfg, current, pair, obs), Started)
  }

  /** What `next` observes. */
  datatype NextObservations = NextObservations(
    uncommittedChanges: bool,   // `git status --porcelain` printed something
    wipHasLocalCommits: bool    // local and remote wip branch point to different commits
  )

  /**
   * next: off a wip branch only a hint; a required commit message stops it;
   * otherwise the work is committed and pushed, the next typist is shown
   * and, unless asked to stay, the base branch is checked out.
   */
  function Next(cfg: Configuration, current: Branch, pair: BranchPair, obs: NextObservations): (r: Run)
    ensures r.outcome.NotMobProgramming? || r.outcome.CommitMessageRequired? || r.outcome.Finished?
    ensures r.outcome == NotMobProgramming <==> !OnWipBranch(current, pair)
    ensures r.outcome == CommitMessageRequired <==>
              OnWipBranch(current, pair)
              && !cfg.hasCustomCommitMessage && cfg.requireCommitMessage && obs.uncommittedChanges
    ensures r.outcome != Finished ==> r.steps == []
    ensures r.outcome == Finished ==>
              && current == pair.wip
              && forall x :: x in r.steps <==>
                   || x == ShowNext
                   || (x == CommitWip && obs.uncommittedChanges)
                   || (x == Push(pair.wip) && (obs.uncommittedChanges || obs.wipHasLocalCommits))
                   || (x == Checkout(pair.base) && !cfg.nextStay)
  {
    if !OnWipBranch(current, pair) then Run([], NotMobProgramming)
    else if !cfg.hasCustomCommitMessage && cfg.requireCommitMessage && obs.uncommittedChanges then
      Run([], CommitMessageRequired)
    else
      var saved := if !obs.uncommittedChanges then When(obs.wipHasLocalCommits, Push(pair.wip))
                   else [CommitWip, Push(pair.wip)];
      Run(saved + [ShowNext] + When(!cfg.nextStay, Checkout(pair.base)), Finished)
  }

  /** What `done` observes. */
  datatype DoneObservations = DoneObservations(
    remoteWipExists: bool,
    uncommittedChanges: bool,
    mergeFailed: bool           // the merge of the wip branch into the base failed
  )

  /** squashOrCommit: `done` squashes the wip commits only in Squash mode. */
  function SquashMerge(cfg: Configuration): (squash: bool)
    ensures squash <==> cfg.doneSquash == Squash
  {
    match cfg.doneSquash
    case Squash => true
    case _ => false
  }

  /**
   * The steps of `done` while the remote wip branch exists, up to the merge:
   * the fetch, the SquashWip rewrite, the wip commit of uncommitted changes,
   * the push of the wip branch, and the merge into the updated base branch.
   */
  function Integrate(cfg: Configuration, pair: BranchPair, obs: DoneObservations): (r: seq<Step>)
    ensures |r| >= 5 && r[0] == Fetch && r[|r| - 1] == Merge(pair.wip, SquashMerge(cfg))
    ensures r[|r| - 4] == Push(pair.wip) && r[|r| - 3] == Checkout(pair.base)
    ensures forall x :: x in r <==>
              || x == Fetch
              || ((x == MergeFetchHead || x == SquashWipCommits) && cfg.doneSquash == SquashWip)
              || (x == CommitWip && obs.uncommittedChanges)
              || x == Push(pair.wip) || x == Checkout(pair.base)
              || x == MergeRemote(pair.base) || x == Merge(pair.wip, SquashMerge(cfg))
  {
    [Fetch] + (if cfg.doneSquash == SquashWip then [MergeFetchHead, SquashWipCommits] else [])
    + When(obs.uncommittedChanges, CommitWip)
    + [Push(pair.wip), Checkout(pair.base), MergeRemote(pair.base), Merge(pair.wip, SquashMerge(cfg))]
  }

  /**
   * The steps of `done` after a successful merge: the local wip branch is
   * deleted, the last wip commit is undone to be named by the user (unless
   * squashing), the remote wip branch is deleted, co-authors are added.
   */
  function CloseSession(cfg: Configuration, pair: BranchPair, obs: DoneObservations): (r: seq<Step>)
    ensures |r| >= 3 && r[0] == DeleteLocal(pair.wip) && r[|r| - 2] == DeleteRemote(pair.wip)
    ensures forall x :: x in r <==>
              || x == DeleteLocal(pair.wip)
              || (x == ResetSoft && obs.uncommittedChanges && cfg.doneSquash != Squash)
              || x == DeleteRemote(pair.wip) || x == AppendCoauthors
  {
    [DeleteLocal(pair.wip)] + When(obs.uncommittedChanges && cfg.doneSquash != Squash, ResetSoft)
    + [DeleteRemote(pair.wip), AppendCoauthors]
  }

  /**
   * done, for the pair that determineBranches gives for the current branch:
   * off a wip branch only a hint; without a remote wip branch the session
   * was ended by someone else and the local wip branch goes; else the work
   * is pushed and merged into the base, and the wip branch is deleted
   * unless the merge failed.
   */
  function Done(cfg: Configuration, current: Branch, pair: BranchPair, obs: DoneObservations): (r: Run)
    ensures r.outcome.NotMobProgramming? || r.outcome.SessionEndedElsewhere? || r.outcome.MergeConflict? || r.outcome.Finished?
    ensures r.outcome == NotMobProgramming <==> !OnWipBranch(current, pair)
    ensures r.outcome == NotMobProgramming ==> r.steps == []
    ensures r.steps != [] ==> r.steps[0] == Fetch
    ensures r.outcome == SessionEndedElsewhere <==>
              OnWipBranch(current, pair) && !obs.remoteWipExists
    ensures r.outcome == MergeConflict <==>
              OnWipBranch(current, pair) && obs.remoteWipExists && obs.mergeFailed
    ensures r.outcome == SessionEndedElsewhere ==>
              r.steps == [Fetch, Checkout(pair.base), DeleteLocal(pair.wip), PullFastForward]
    ensures r.outcome == MergeConflict || r.outcome == Finished ==>
              forall x :: x in r.steps <==>
                || x == Fetch
                || ((x == MergeFetchHead || x == SquashWipCommits) && cfg.doneSquash == SquashWip)
                || (x == CommitWip && obs.uncommittedChanges)
                || x == Push(pair.wip) || x == Checkout(pair.base)
                || x == MergeRemote(pair.base) || x == Merge(pair.wip, cfg.doneSquash == Squash)
                || (r.outcome == Finished && x == DeleteLocal(pair.wip))
                || (r.outcome == Finished && x == ResetSoft && obs.uncommittedChanges && cfg.doneSquash != Squash)
                || (r.outcome == Finished && (x == DeleteRemote(pair.wip) || x == AppendCoauthors))
  {
    if !OnWipBranch(current, pair) then Run([], NotMobProgramming)
    else if !obs.remoteWipExists then
      Run([Fetch, Checkout(pair.base), DeleteLocal(pair.wip), PullFastForward], SessionEndedElsewhere)
    else if obs.mergeFailed then Run(Integrate(cfg, pair, obs), MergeConflict)
    else Run(Integrate(cfg, pair, obs) + CloseSession(cfg, pair, obs), Finished)
  }

  /** With IncludeChanges, the changes are stashed before the session step and restored after it. */
  lemma {:induction false} StartStashesAroundSession(cfg: Configuration, current: Branch, pair: BranchPair,
                                                     obs: StartObservations)
    requires Start(cfg, current, pair, obs).outcome == Started && Includes(cfg, obs)
    ensures var steps := Start(cfg, current, pair, obs).steps;
            && Precedes(steps, StashPush(cfg.stashName), SessionStep(pair, obs))
            && Precedes(steps, SessionStep(pair, obs), StashPop(cfg.stashName))
  {
    var pre, e := Prepare(cfg, pair, obs), EnterSession(cfg, current, pair, obs);
    var steps := Start(cfg, current, pair, obs).steps;
    assert steps == pre + e;
    var i, j, k := |pre|, |pre| + |e| - 2, |pre| + |e| - 1;
    assert steps[i] == e[0] && steps[j] == e[|e| - 2] && steps[k] == e[|e| - 1];
  }

  /**
   * A finished `done` pushes the wip branch before merging it, merges
   * before deleting it, and deletes the local branch before the remote one.
   */
  lemma {:induction false} DoneOrder(cfg: Configuration, current: Branch, pair: BranchPair, obs: DoneObservations)
    requires Done(cfg, current, pair, obs).outcome == Finished
    ensures var steps := Done(cfg, current, pair, obs).steps;
            && Precedes(steps, Push(pair.wip), Merge(pair.wip, SquashMerge(cfg)))
            && Precedes(steps, Merge(pair.wip, SquashMerge(cfg)), DeleteLocal(pair.wip))
            && Precedes(steps, DeleteLocal(pair.wip), DeleteRemote(pair.wip))
  {
    var m, c := Integrate(cfg, pair, obs), CloseSession(cfg, pair, obs);
    var steps := Done(cfg, current, pair, obs).steps;
    assert steps == m + c;
    assert steps[|m| - 4] == m[|m| - 4] && steps[|m| - 1] == m[|m| - 1];
    assert steps[|m|] == c[0] && steps[|m| + |c| - 2] == c[|c| - 2];
  }

  /** A finished `next` commits before it pushes, and ends on the base branch unless asked to stay. */
  lemma NextOrder(cfg: Configuration, current: Branch, pair: BranchPair, obs: NextObservations)
    requires Next(cfg, current, pair, obs).outcome == Finished
    ensures var steps := Next(cfg, current, pair, obs).steps;
            && (obs.uncommittedChanges ==> Precedes(steps, CommitWip, Push(pair.wip)))
            && steps[|steps| - 1] == (if cfg.nextStay then ShowNext else Checkout(pair.base))
  {
    var steps := Next(cfg, current, pair, obs).steps;
    if obs.uncommittedChanges {
      assert steps[0] == CommitWip && steps[1] == Push(pair.wip);
    }
  }

  /**
   * The session round trip: `start` on a base branch creates the wip branch
   * from it, and a successful `done` on that wip branch, for the pair that
   * determineBranches then gives, checks the same base branch out again and
   * merges the wip branch into it.
   */
  lemma SessionRoundTrip(cfg: Configuration, base: Branch, localBranches: seq<string>,
                         start: StartObservations, done: DoneObservations)
    requires NoSpace(base.name) && NoSpace(cfg.wipBranchPrefix) && NoSpace(cfg.wipBranchQualifierSuffix)
    requires !IsLegacyCase(base, cfg) && !IsWipBranch(base, cfg)
    requires base.name in localBranches
    requires cfg.customWipBranchQualifierConfigured ==>
               Contains(cfg.wipBranchQualifierSuffix, cfg.wipBranchQualifierSeparator)
               && base.name + cfg.wipBranchQualifierSuffix !in localBranches
    requires !IsLegacyCase(DetermineBranches(base, localBranches, cfg).wip, cfg)
    requires Start(cfg, base, DetermineBranches(base, localBranches, cfg), start).outcome == Started
    requires !start.remoteWipExists && done.remoteWipExists && !done.mergeFailed
    ensures var wip := DetermineBranches(base, localBranches, cfg).wip;
            var r := Done(cfg, wip, DetermineBranches(wip, localBranches, cfg), done);
            && NewSession(wip, base) in Start(cfg, base, DetermineBranches(base, localBranches, cfg), start).steps
            && r.outcome == Finished
            && Checkout(base) in r.steps && Merge(wip, cfg.doneSquash == Squash) in r.steps
  {
    WipBranchRoundTrip(base, localBranches, cfg);
  }
}
