/**
 * Base/wip branch-pair resolution: the branch helpers of mob.go and
 * `determineBranches`, which maps the current branch, the local branch
 * list and the naming settings to the (base, wip) pair of a session.
 */
module Branches {
  import opened GoStrings
  import opened Config

  /** A branch is its name; `newBranch` trims white space around it. */
  datatype Branch = Branch(name: string)

  datatype BranchPair = BranchPair(base: Branch, wip: Branch)

  /** The deprecated wip branch, paired with base `master`. */
  const MobSession: string := "mob-session"
  const Master: string := "master"

  /** newBranch: the name without surrounding white space. */
  function NewBranch(name: string): (b: Branch)
    ensures IsTrimmed(b.name) && |b.name| <= |name|
    ensures IsTrimmed(name) ==> b.name == name
  {
    Branch(TrimSpace(name))
  }

  /** IsWipBranch: the legacy name, or a name that starts with the wip prefix. */
  predicate IsWipBranch(b: Branch, cfg: Configuration)
    ensures IsWipBranch(b, cfg) <==> b.name == MobSession || HasPrefix(b.name, cfg.wipBranchPrefix)
  {
    assert HasPrefix(b.name, cfg.wipBranchPrefix) <==> OccursAt(b.name, cfg.wipBranchPrefix, 0);
    b.name == MobSession || Index(b.name, cfg.wipBranchPrefix) == 0
  }

  /** remote: the remote-tracking branch, `<remote name>/<name>`. */
  function Remote(b: Branch, cfg: Configuration): (r: Branch)
    ensures NoSpace(cfg.remoteName) && NoSpace(b.name) ==> r.name == cfg.remoteName + "/" + b.name
  {
    NewBranch(cfg.remoteName + "/" + b.name)
  }

  /** addWipPrefix: the wip prefix followed by the name, trimmed. */
  function AddWipPrefix(b: Branch, cfg: Configuration): (r: Branch)
    ensures NoSpace(cfg.wipBranchPrefix) && NoSpace(b.name) ==> r.name == cfg.wipBranchPrefix + b.name
  {
    NewBranch(cfg.wipBranchPrefix + b.name)
  }

  function AddSuffix(branch: string, suffix: string): (r: string)
    ensures HasSuffix(r, suffix) && HasPrefix(r, branch)
  {
    branch + suffix
  }

  /** addWipQualifier: the name with the qualifier suffix, when a qualifier is configured. */
  function AddWipQualifier(b: Branch, cfg: Configuration): (r: Branch)
    ensures !cfg.customWipBranchQualifierConfigured ==> r == b
    ensures cfg.customWipBranchQualifierConfigured && NoSpace(b.name) && NoSpace(cfg.wipBranchQualifierSuffix) ==>
              r.name == b.name + cfg.wipBranchQualifierSuffix
  {
    if cfg.customWipBranchQualifierConfigured then
      NewBranch(AddSuffix(b.name, cfg.wipBranchQualifierSuffix))
    else b
  }

  /** removePrefix: drops `prefix` when `branch` starts with it, else changes nothing. */
  function RemovePrefix(branch: string, prefix: string): (r: string)
    ensures HasPrefix(branch, prefix) ==> branch == prefix + r
    ensures !HasPrefix(branch, prefix) ==> r == branch
  {
    if !HasPrefix(branch, prefix) then branch else branch[|prefix|..]
  }

  lemma RemovePrefixOfPrefixed(p: string, x: string)
    ensures RemovePrefix(p + x, p) == x
  {
    assert (p + x)[..|p|] == p;
  }

  /** removeWipPrefix: the name without the wip prefix, trimmed. */
  function RemoveWipPrefix(b: Branch, cfg: Configuration): (r: Branch)
    ensures NoSpace(b.name) && HasPrefix(b.name, cfg.wipBranchPrefix) ==> cfg.wipBranchPrefix + r.name == b.name
  {
    NewBranch(RemovePrefix(b.name, cfg.wipBranchPrefix))
  }

  /** hasWipBranchQualifierSeparator. */
  predicate HasWipBranchQualifierSeparator(b: Branch, cfg: Configuration) {
    Contains(b.name, cfg.wipBranchQualifierSeparator)
  }

  /** A trimmed prefix of a name is the name itself or strictly shorter. */
  lemma TrimmedPrefixProgress(b: Branch, k: nat)
    requires k <= |b.name|
    ensures NewBranch(b.name[..k]) == b || |NewBranch(b.name[..k]).name| < |b.name|
  {
    if |NewBranch(b.name[..k]).name| == |b.name| {
      assert b.name[..k] == b.name;
    }
  }

  /**
   * removeFromSeparator: the trimmed text before the last occurrence of the
   * separator. The slice panics when the separator is absent; the only caller
   * tests for it first.
   */
  function RemoveFromSeparator(b: Branch, separator: string): (r: Branch)
    requires Contains(b.name, separator)
    ensures exists k :: OccursAt(b.name, separator, k) && (forall j :: k < j ==> !OccursAt(b.name, separator, j))
                        && r == NewBranch(b.name[..k])
    ensures r == b || |r.name| < |b.name|
  {
    var k := LastIndex(b.name, separator);
    TrimmedPrefixProgress(b, k);
    NewBranch(b.name[..k])
  }

  /** removeWipQualifierSuffix: drops the qualifier suffix once, if the name ends with it. */
  function RemoveWipQualifierSuffix(b: Branch, cfg: Configuration): (r: Branch)
    ensures HasSuffix(b.name, cfg.wipBranchQualifierSuffix) ==>
              r == NewBranch(b.name[..|b.name| - |cfg.wipBranchQualifierSuffix|])
    ensures !HasSuffix(b.name, cfg.wipBranchQualifierSuffix) ==> r == b
    ensures r == b || |r.name| < |b.name|
  {
    var suffix := cfg.wipBranchQualifierSuffix;
    if HasSuffix(b.name, suffix) then
      assert OccursAt(b.name, suffix, |b.name| - |suffix|);
      var k := LastIndex(b.name, suffix);
      TrimmedPrefixProgress(b, k);
      NewBranch(b.name[..k])
    else b
  }

  function RemoveWipQualifierSuffixOrSeparator(b: Branch, cfg: Configuration): (r: Branch)
    requires !cfg.customWipBranchQualifierConfigured ==> HasWipBranchQualifierSeparator(b, cfg)
    ensures r == b || |r.name| < |b.name|
  {
    if !cfg.customWipBranchQualifierConfigured then
      RemoveFromSeparator(b, cfg.wipBranchQualifierSeparator)
    else
      RemoveWipQualifierSuffix(b, cfg)
  }

  /**
   * The value the stripping loop of removeWipQualifier reaches: strip while
   * the name is not a local branch and still holds the separator, and stop
   * as soon as a removal changes nothing.
   */
  function StripQualifiers(b: Branch, localBranches: seq<string>, cfg: Configuration): (r: Branch)
    ensures |r.name| <= |b.name|
    ensures b.name in localBranches ==> r == b
    ensures || r.name in localBranches
            || !HasWipBranchQualifierSeparator(r, cfg)
            || RemoveWipQualifierSuffixOrSeparator(r, cfg) == r
    decreases |b.name|
  {
    if b.name !in localBranches && HasWipBranchQualifierSeparator(b, cfg) then
      var afterRemoval := RemoveWipQualifierSuffixOrSeparator(b, cfg);
      if b == afterRemoval then b else StripQualifiers(afterRemoval, localBranches, cfg)
    else b
  }

  /** stringContains: a flag set by a scan over the whole list. */
  method StringContains(list: seq<string>, element: string) returns (found: bool)
    ensures found <==> element in list
  {
    found := false;
    for i := 0 to |list|
      invariant found <==> element in list[..i]
    {
      if list[i] == element {
        found := true;
      }
    }
    assert list[..|list|] == list;
  }

  /**
   * removeWipQualifier: the loop that strips qualifiers. It terminates
   * because every iteration either breaks or makes the name strictly shorter.
   */
  method RemoveWipQualifier(branch: Branch, localBranches: seq<string>, cfg: Configuration) returns (r: Branch)
    ensures r == StripQualifiers(branch, localBranches, cfg)
  {
    r := branch;
    while true
      invariant StripQualifiers(r, localBranches, cfg) == StripQualifiers(branch, localBranches, cfg)
      decreases |r.name|
    {
      var found := StringContains(localBranches, r.name);
      if found || !Contains(r.name, cfg.wipBranchQualifierSeparator) {
        break;
      }
      var afterRemoval := RemoveWipQualifierSuffixOrSeparator(r, cfg);
      if r == afterRemoval {
        break;
      }
      r := afterRemoval;
    }
  }

  /** The first rule of determineBranches: the deprecated master/mob-session pair. */
  predicate IsLegacyCase(current: Branch, cfg: Configuration) {
    current.name == MobSession || (current.name == Master && !cfg.customWipBranchQualifierConfigured)
  }

  /**
   * determineBranches. The branch that panics in the source ("neither on base
   * nor on wip branch") is unreachable: the current branch is always one of
   * the pair.
   */
  function DetermineBranches(current: Branch, localBranches: seq<string>, cfg: Configuration): (p: BranchPair)
    ensures current == p.base || current == p.wip
    ensures IsLegacyCase(current, cfg) ==> p == BranchPair(Branch(Master), Branch(MobSession))
    ensures !IsLegacyCase(current, cfg) && IsWipBranch(current, cfg) ==>
              p.wip == current && |p.base.name| <= |current.name|
    ensures !IsLegacyCase(current, cfg) && !IsWipBranch(current, cfg) ==> p.base == current
  {
    if IsLegacyCase(current, cfg) then
      BranchPair(NewBranch(Master), NewBranch(MobSession))
    else if IsWipBranch(current, cfg) then
      BranchPair(StripQualifiers(RemoveWipPrefix(current, cfg), localBranches, cfg), current)
    else
      BranchPair(current, AddWipQualifier(AddWipPrefix(current, cfg), cfg))
  }

  /** isMobProgramming: the current branch is the wip branch of its pair. */
  predicate IsMobProgramming(current: Branch, localBranches: seq<string>, cfg: Configuration) {
    DetermineBranches(current, localBranches, cfg).wip == current
  }

  /**
   * A branch that is not a wip branch is the base, and its wip branch is the
   * prefix, the branch and, when a qualifier is configured, the suffix
   * (for names without white space, which git refuses in branch names anyway).
   */
  lemma NonWipBranchGetsPrefixedWip(current: Branch, localBranches: seq<string>, cfg: Configuration)
    requires NoSpace(current.name) && NoSpace(cfg.wipBranchPrefix) && NoSpace(cfg.wipBranchQualifierSuffix)
    requires !IsLegacyCase(current, cfg) && !IsWipBranch(current, cfg)
    ensures DetermineBranches(current, localBranches, cfg) ==
              BranchPair(current, Branch(cfg.wipBranchPrefix + QualifiedName(current, cfg)))
  {
    var named := cfg.wipBranchPrefix + current.name;
    NoSpaceConcat(cfg.wipBranchPrefix, current.name);
    NoSpaceIsTrimmed(named);
    if cfg.customWipBranchQualifierConfigured {
      var suffix := cfg.wipBranchQualifierSuffix;
      NoSpaceConcat(named, suffix);
      NoSpaceIsTrimmed(named + suffix);
      assert named + suffix == cfg.wipBranchPrefix + (current.name + suffix);
    }
  }

  /**
   * Resolving the wip branch of a local base branch gives that base back:
   * the pair is the same from either side of the session.
   */
  lemma {:induction false} WipBranchRoundTrip(base: Branch, localBranches: seq<string>, cfg: Configuration)
    requires NoSpace(base.name) && NoSpace(cfg.wipBranchPrefix) && NoSpace(cfg.wipBranchQualifierSuffix)
    requires !IsLegacyCase(base, cfg) && !IsWipBranch(base, cfg)
    requires base.name in localBranches
    requires cfg.customWipBranchQualifierConfigured ==>
               Contains(cfg.wipBranchQualifierSuffix, cfg.wipBranchQualifierSeparator)
               && base.name + cfg.wipBranchQualifierSuffix !in localBranches
    requires !IsLegacyCase(DetermineBranches(base, localBranches, cfg).wip, cfg)
    ensures var wip := DetermineBranches(base, localBranches, cfg).wip;
            DetermineBranches(wip, localBranches, cfg) == BranchPair(base, wip)
  {
    var prefix := cfg.wipBranchPrefix;
    var tail := QualifiedName(base, cfg);
    var wip := Branch(prefix + tail);
    NonWipBranchGetsPrefixedWip(base, localBranches, cfg);
    WipPrefixRemoved(prefix, tail, cfg);
    StripReachesBase(base, tail, localBranches, cfg);
    ResolveWip(wip, localBranches, cfg);
  }

  /** The base name followed by the qualifier suffix, when one is configured. */
  function QualifiedName(base: Branch, cfg: Configuration): (tail: string)
    requires NoSpace(base.name) && NoSpace(cfg.wipBranchQualifierSuffix)
    ensures NoSpace(tail) && HasPrefix(tail, base.name)
  {
    if cfg.customWipBranchQualifierConfigured then
      NoSpaceConcat(base.name, cfg.wipBranchQualifierSuffix);
      AddSuffix(base.name, cfg.wipBranchQualifierSuffix)
    else base.name
  }

  /** A wip branch outside the legacy pair resolves to the stripped name and itself. */
  lemma ResolveWip(wip: Branch, localBranches: seq<string>, cfg: Configuration)
    requires !IsLegacyCase(wip, cfg) && IsWipBranch(wip, cfg)
    ensures DetermineBranches(wip, localBranches, cfg)
            == BranchPair(StripQualifiers(RemoveWipPrefix(wip, cfg), localBranches, cfg), wip)
  {
  }

  /** Removing the wip prefix from `prefix + tail` leaves `tail`. */
  lemma WipPrefixRemoved(prefix: string, tail: string, cfg: Configuration)
    requires prefix == cfg.wipBranchPrefix && NoSpace(tail)
    ensures IsWipBranch(Branch(prefix + tail), cfg)
    ensures RemoveWipPrefix(Branch(prefix + tail), cfg) == Branch(tail)
  {
    assert (prefix + tail)[..|prefix|] == prefix;
    RemovePrefixOfPrefixed(prefix, tail);
    NoSpaceIsTrimmed(tail);
  }

  /** From the base name with the qualifier suffix, the stripping loop reaches the local base. */
  lemma StripReachesBase(base: Branch, tail: string, localBranches: seq<string>, cfg: Configuration)
    requires NoSpace(base.name) && NoSpace(cfg.wipBranchQualifierSuffix) && base.name in localBranches
    requires tail == QualifiedName(base, cfg)
    requires cfg.customWipBranchQualifierConfigured ==>
               Contains(cfg.wipBranchQualifierSuffix, cfg.wipBranchQualifierSeparator)
               && tail !in localBranches
    ensures StripQualifiers(Branch(tail), localBranches, cfg) == base
  {
    if cfg.customWipBranchQualifierConfigured {
      var suffix := cfg.wipBranchQualifierSuffix;
      var b := Branch(tail);
      ContainsInSuffix(base.name, suffix, cfg.wipBranchQualifierSeparator);
      assert HasWipBranchQualifierSeparator(b, cfg);
      assert tail[|tail| - |suffix|..] == suffix;
      assert tail[..|tail| - |suffix|] == base.name;
      NoSpaceIsTrimmed(base.name);
      assert RemoveWipQualifierSuffixOrSeparator(b, cfg) == base;
    } else {
      assert tail == base.name;
    }
  }

  /**
   * With a wip prefix that is not all white space, base and wip are two
   * different branches (so `done` never deletes its base branch).
   */
  lemma BaseDiffersFromWip(current: Branch, localBranches: seq<string>, cfg: Configuration)
    requires IsTrimmed(current.name) && HasVisible(cfg.wipBranchPrefix)
    ensures var p := DetermineBranches(current, localBranches, cfg); p.base != p.wip
  {
    if !IsLegacyCase(current, cfg) && !IsWipBranch(current, cfg) {
      WipNameIsLonger(current, cfg);
    }
  }

  /** The wip name built from a trimmed branch is longer than the branch. */
  lemma WipNameIsLonger(current: Branch, cfg: Configuration)
    requires IsTrimmed(current.name) && HasVisible(cfg.wipBranchPrefix)
    ensures |AddWipQualifier(AddWipPrefix(current, cfg), cfg).name| > |current.name|
  {
    PrefixedNameIsLonger(cfg.wipBranchPrefix, current.name);
    var x := AddWipPrefix(current, cfg).name;
    if cfg.customWipBranchQualifierConfigured {
      SuffixKeepsTrimmedName(x, cfg.wipBranchQualifierSuffix);
    }
  }

  /** Trimming `prefix + name` keeps a visible character of the prefix and all of `name`. */
  lemma PrefixedNameIsLonger(prefix: string, name: string)
    requires IsTrimmed(name) && HasVisible(prefix)
    ensures |TrimSpace(prefix + name)| > |name|
  {
    var s := prefix + name;
    var c :| 0 <= c < |prefix| && !IsSpace(prefix[c]);
    assert s[c] == prefix[c];
    TrimKeepsVisible(s, c);
    if name != [] {
      assert s[|s| - 1] == name[|name| - 1];
      TrimKeepsVisible(s, |s| - 1);
    }
  }

  /** Trimming `x + suffix` keeps all of a trimmed non-empty `x`. */
  lemma SuffixKeepsTrimmedName(x: string, suffix: string)
    requires IsTrimmed(x) && x != []
    ensures |TrimSpace(x + suffix)| >= |x|
  {
    var t := x + suffix;
    assert t[0] == x[0] && t[|x| - 1] == x[|x| - 1];
    TrimKeepsVisible(t, 0);
    TrimKeepsVisible(t, |x| - 1);
  }

  /**
   * With a visible wip prefix, isMobProgramming holds exactly on wip
   * branches, except `master` when no qualifier is configured (the legacy
   * pair, whose wip branch is `mob-session`).
   */
  lemma IsMobProgrammingIff(current: Branch, localBranches: seq<string>, cfg: Configuration)
    requires IsTrimmed(current.name) && HasVisible(cfg.wipBranchPrefix)
    ensures IsMobProgramming(current, localBranches, cfg) <==>
              current.name == MobSession
              || (HasPrefix(current.name, cfg.wipBranchPrefix)
                  && !(current.name == Master && !cfg.customWipBranchQualifierConfigured))
  {
    BaseDiffersFromWip(current, localBranches, cfg);
  }
}
