/**
 * The small text builders and parsers of mob.go: the stash lookup, the
 * `lastFile:` tag of wip commits, the porcelain status parser, the open
 * command, the placeholder injection, argument scans, the reversal of the
 * commit list and the filter of remote wip branches.
 */
module MobText {
  import opened Wrappers
  import opened Sequences
  import opened GoStrings
  import opened Config
  import opened Branches

  // ---------------------------------------------------------------- stashes

  /** The index of the first line at or after `k` that contains `stash`, or |lines|. */
  function FirstMatchFrom(lines: seq<string>, stash: string, k: nat): (i: nat)
    requires k <= |lines|
    ensures k <= i <= |lines|
    ensures forall j :: k <= j < i ==> !Contains(lines[j], stash)
    ensures i < |lines| ==> Contains(lines[i], stash)
    decreases |lines| - k
  {
    if k == |lines| || Contains(lines[k], stash) then k else FirstMatchFrom(lines, stash, k + 1)
  }

  function FirstMatch(lines: seq<string>, stash: string): nat {
    FirstMatchFrom(lines, stash, 0)
  }

  /**
   * findStashByName slices the matching line up to its first ':', which
   * panics when that line has none: the caller must pass a stash list
   * whose first matching line holds a ':'.
   */
  predicate StashLineHasColon(stashes: string, stash: string) {
    var lines := Split(stashes, "\n");
    FirstMatch(lines, stash) < |lines| ==> Contains(lines[FirstMatch(lines, stash)], ":")
  }

  /** `id` is the text of `line` before its first ':'. */
  predicate IsTextBeforeColon(id: string, line: string) {
    HasPrefix(line, id + ":") && !Contains(id, ":")
  }

  /**
   * findStashByName: the text before the first ':' of the first line of
   * the stash list that contains the stash name, or "unknown".
   */
  method FindStashByName(stashes: string, stash: string) returns (r: string)
    requires StashLineHasColon(stashes, stash)
    ensures var lines := Split(stashes, "\n");
            var i := FirstMatch(lines, stash);
            if i == |lines| then r == "unknown" else IsTextBeforeColon(r, lines[i])
  {
    var lines := Split(stashes, "\n");
    for i := 0 to |lines|
      invariant forall j :: 0 <= j < i ==> !Contains(lines[j], stash)
    {
      var line := lines[i];
      if Contains(line, stash) {
        assert FirstMatch(lines, stash) == i;
        var k := Index(line, ":");
        r := line[..k];
        TextBeforeFirst(line, k);
        return;
      }
    }
    r := "unknown";
  }

  /** The text before the first occurrence of ':' is followed by ':' and has none. */
  lemma TextBeforeFirst(line: string, k: int)
    requires k >= 0 && k == Index(line, ":")
    ensures IsTextBeforeColon(line[..k], line)
  {
    assert line[..k + 1] == line[..k] + ":" by {
      assert line[k..k + 1] == ":";
    }
    if Contains(line[..k], ":") {
      OccursInPrefix(line, k, ":", Index(line[..k], ":"));
    }
  }

  // ---------------------------------------------------------- lastFile tag

  const LastFileTag: string := "lastFile:"

  /**
   * createWipCommitMessage, with the path of the last modified file (found
   * through file modification times in the source) passed as a parameter.
   */
  function CreateWipCommitMessage(wipCommitMessage: string, lastModifiedFilePath: string): (m: string)
    ensures HasPrefix(m, wipCommitMessage)
    ensures lastModifiedFilePath != "" ==> HasSuffix(m, LastFileTag + lastModifiedFilePath)
    ensures lastModifiedFilePath == "" ==> m == wipCommitMessage
  {
    if lastModifiedFilePath != "" then
      var m := wipCommitMessage + "\n\n" + LastFileTag + lastModifiedFilePath;
      assert m[..|wipCommitMessage|] == wipCommitMessage;
      assert m[|m| - |LastFileTag + lastModifiedFilePath|..] == LastFileTag + lastModifiedFilePath;
      m
    else wipCommitMessage
  }

  /** What openLastModifiedFileIfPresent reads from the last commit message. */
  datatype LastFile =
    | NoTag                     // "Couldn't find last modified file in commit message!"
    | TagRepeated               // "separator was used multiple times!"
    | NeedsUnquote(raw: string) // a quoted name, passed to strconv.Unquote
    | NoPath                    // an empty name after the tag
    | LastFile(path: string)    // the path to open, relative to the root

  /** The parsing part of openLastModifiedFileIfPresent. */
  function ParseLastFile(message: string): (r: LastFile)
    ensures r == NoTag <==> !Contains(message, LastFileTag)
    ensures r == TagRepeated <==> Count(message, LastFileTag) > 1
    ensures r.LastFile? ==> r.path != "" && '\n' !in r.path && !HasPrefix(r.path, "\"")
  {
    var split := Split(message, LastFileTag);
    SplitCount(message, LastFileTag);
    if |split| == 1 then NoTag
    else if |split| > 2 then TagRepeated
    else
      var file := Split(split[1], "\n")[0];
      SplitPartsLackSeparator(split[1], "\n");
      assert !Contains(file, "\n");
      IndexOfMissingChar(file, '\n');
      if HasPrefix(file, "\"") then NeedsUnquote(file)
      else if file == "" then NoPath
      else LastFile(file)
  }

  /** No occurrence of the tag starts inside `msg + "\n\n"` when `msg` lacks it. */
  lemma TagNotBeforeSeparator(msg: string)
    requires !Contains(msg, LastFileTag)
    ensures forall k :: 0 <= k < |msg + "\n\n"| ==> !OccursAt(msg + "\n\n" + LastFileTag, LastFileTag, k)
  {
    var a := msg + "\n\n";
    var s := a + LastFileTag;
    forall k | 0 <= k < |a|
      ensures !OccursAt(s, LastFileTag, k)
    {
      if k + |LastFileTag| <= |msg| {
        assert s[k..k + |LastFileTag|] == msg[k..k + |LastFileTag|];
        ContainsIff(msg, LastFileTag, k);
      } else {
        var p := if k <= |msg| then |msg| else |msg| + 1;
        assert s[p] == '\n';
        assert k + |LastFileTag| <= |s| ==> s[k..k + |LastFileTag|][p - k] == s[p];
      }
    }
  }

  /**
   * The `lastFile:` tag round-trips: the parser reads back the path that
   * createWipCommitMessage appended, provided the message lacks the tag
   * and the path lacks the tag and newlines. A quoted path is handed on
   * to be unquoted; with no path there is no tag.
   */
  lemma LastFileRoundTrip(msg: string, path: string)
    requires !Contains(msg, LastFileTag)
    requires '\n' !in path && !Contains(path, LastFileTag)
    ensures path == "" ==> ParseLastFile(CreateWipCommitMessage(msg, path)) == NoTag
    ensures path != "" ==>
              ParseLastFile(CreateWipCommitMessage(msg, path)) ==
              (if HasPrefix(path, "\"") then NeedsUnquote(path) else LastFile(path))
  {
    if path != "" {
      var a := msg + "\n\n";
      assert CreateWipCommitMessage(msg, path) == a + LastFileTag + path;
      TagNotBeforeSeparator(msg);
      SplitAtFirst(a, LastFileTag, path);
      assert Split(a + LastFileTag + path, LastFileTag) == [a, path];
      IndexOfMissingChar(path, '\n');
      assert Split(path, "\n") == [path];
    }
  }

  /** A path that itself holds the tag makes the tag ambiguous. */
  lemma TaggedPathIsAmbiguous(msg: string, path: string)
    requires !Contains(msg, LastFileTag) && Contains(path, LastFileTag)
    ensures ParseLastFile(CreateWipCommitMessage(msg, path)) == TagRepeated
  {
    var a := msg + "\n\n";
    assert CreateWipCommitMessage(msg, path) == a + LastFileTag + path;
    TagNotBeforeSeparator(msg);
    SplitAtFirst(a, LastFileTag, path);
    SplitCount(path, LastFileTag);
    SplitCount(a + LastFileTag + path, LastFileTag);
  }

  // ------------------------------------------------------- modified files

  /** A porcelain line of a modified or added file. */
  predicate IsModifiedOrAdded(line: string) {
    HasPrefix(line, "M") || HasPrefix(line, "A")
  }

  /** The file paths getModifiedFiles collects from the lines of `git status --porcelain`. */
  function ModifiedPaths(lines: seq<string>): seq<string> {
    if lines == [] then []
    else
      var line := lines[|lines| - 1];
      ModifiedPaths(lines[..|lines| - 1]) + (if IsModifiedOrAdded(line) then [TrimSpace(line[1..])] else [])
  }

  /** The line parser of getModifiedFiles: the trimmed rest of each M or A line, in order. */
  method GetModifiedFiles(gitstatus: string) returns (files: seq<string>)
    ensures files == ModifiedPaths(Split(gitstatus, "\n"))
    ensures forall f | f in files :: IsTrimmed(f)
  {
    var lines := Split(gitstatus, "\n");
    files := [];
    for i := 0 to |lines|
      invariant files == ModifiedPaths(lines[..i])
      invariant forall f | f in files :: IsTrimmed(f)
    {
      assert lines[..i + 1][..i] == lines[..i];
      var line := lines[i];
      var relativeFilepath := "";
      if HasPrefix(line, "M") {
        relativeFilepath := line[1..];
      } else if HasPrefix(line, "A") {
        relativeFilepath := line[1..];
      } else {
        continue;
      }
      relativeFilepath := TrimSpace(relativeFilepath);
      files := files + [relativeFilepath];
    }
    assert lines[..|lines|] == lines;
  }

  /** The paths of two stretches of lines are the paths of each, in order. */
  lemma {:induction false} ModifiedPathsConcat(a: seq<string>, b: seq<string>)
    ensures ModifiedPaths(a + b) == ModifiedPaths(a) + ModifiedPaths(b)
    decreases |b|
  {
    if b == [] {
      assert a + b == a;
    } else {
      assert (a + b)[..|a + b| - 1] == a + b[..|b| - 1];
      ModifiedPathsConcat(a, b[..|b| - 1]);
    }
  }

  /** The M or A line `line` yields the path `f`. */
  predicate YieldsPath(line: string, f: string) {
    IsModifiedOrAdded(line) && f == TrimSpace(line[1..])
  }

  /** A path is collected exactly when some M or A line yields it. */
  lemma {:induction false} ModifiedPathsMembers(lines: seq<string>, f: string)
    ensures f in ModifiedPaths(lines) <==> exists i :: 0 <= i < |lines| && YieldsPath(lines[i], f)
    decreases |lines|
  {
    if lines != [] {
      var init := lines[..|lines| - 1];
      ModifiedPathsMembers(init, f);
      if f in ModifiedPaths(lines) {
        if f in ModifiedPaths(init) {
          var i :| 0 <= i < |init| && YieldsPath(init[i], f);
          assert lines[i] == init[i];
        } else {
          assert YieldsPath(lines[|lines| - 1], f);
        }
      } else {
        forall i | 0 <= i < |lines| ensures !YieldsPath(lines[i], f) {
          if i < |init| {
            assert lines[i] == init[i];
          }
        }
      }
    }
  }

  // ------------------------------------------------- injecting the message

  const Placeholder: string := "%s"

  /**
   * injectCommandWithMessage: None stands for the exit on more than one
   * placeholder; without one the message is appended after a space; the
   * single `%s` is replaced by the message.
   */
  function InjectCommandWithMessage(command: string, message: string): (r: Option<string>)
    ensures r.None? <==> Count(command, Placeholder) > 1
  {
    var placeHolders := Count(command, Placeholder);
    if placeHolders > 1 then None
    else if placeHolders == 0 then Some(command + " " + message)
    else
      var k := Index(command, Placeholder);
      Some(command[..k] + message + command[k + |Placeholder|..])
  }

  /** A command ending in " %s" injects the message where the placeholder-free command would put it. */
  lemma InjectAppendedPlaceholder(command: string, message: string)
    requires !Contains(command, Placeholder)
    ensures InjectCommandWithMessage(command + " %s", message) == InjectCommandWithMessage(command, message)
    ensures InjectCommandWithMessage(command, message) == Some(command + " " + message)
  {
    var s := command + " %s";
    var n := |command|;
    assert s[n + 1..n + 3] == Placeholder;
    forall j | 0 <= j < n + 1
      ensures !OccursAt(s, Placeholder, j)
    {
      if j + 2 <= n {
        assert s[j..j + 2] == command[j..j + 2];
        ContainsIff(command, Placeholder, j);
      } else {
        assert s[n] == ' ';
        assert s[j..j + 2][n - j] == s[n];
      }
    }
    assert OccursAt(s, Placeholder, n + 1);
    assert Index(s, Placeholder) == n + 1;
    assert s[n + 1 + |Placeholder|..] == [];
    assert Count(s, Placeholder) == 1;
    assert Count(command, Placeholder) == 0;
    assert s[..n + 1] == command + " ";
    assert s[..n + 1] + message + [] == command + " " + message;
  }

  /** A single `%s`, wherever it stands, is replaced by the message. */
  lemma InjectReplacesPlaceholder(before: string, after: string, message: string)
    requires !Contains(before, Placeholder) && !Contains(after, Placeholder)
    ensures InjectCommandWithMessage(before + Placeholder + after, message) == Some(before + message + after)
  {
    var s := before + Placeholder + after;
    var n := |before|;
    forall j | 0 <= j < n
      ensures !OccursAt(s, Placeholder, j)
    {
      if j + 2 <= n {
        assert s[j..j + 2] == before[j..j + 2];
        ContainsIff(before, Placeholder, j);
      } else {
        assert s[n] == '%';
        assert s[j..j + 2][1] == s[n];
      }
    }
    assert s[n..n + 2] == Placeholder;
    assert OccursAt(s, Placeholder, n);
    assert Index(s, Placeholder) == n;
    assert s[n + |Placeholder|..] == after;
    assert Count(s, Placeholder) == 1;
    assert s[..n] == before;
  }

  /** Two placeholders make the command invalid. */
  lemma TwoPlaceholdersExit(message: string)
    ensures InjectCommandWithMessage("open %s %s", message) == None
  {
    var s := "open %s %s";
    forall j | 0 <= j < 5
      ensures !OccursAt(s, Placeholder, j)
    {
      assert s[j..j + 2][0] == s[j];
    }
    assert OccursAt(s, Placeholder, 5);
    assert Index(s, Placeholder) == 5;
    var t := s[7..];
    assert t == " %s";
    assert t[0..2][0] == ' ';
    assert OccursAt(t, Placeholder, 1);
    assert Index(t, Placeholder) == 1;
  }

  // ---------------------------------------------------------- open command

  /** The marker that protects the spaces of the path while the command is split on spaces. */
  const SpaceMarker: string := "&spc&"

  datatype Command = Command(name: string, args: seq<string>)

  function Protect(path: string): string {
    ReplaceAll(path, " ", SpaceMarker)
  }

  function Unprotect(part: string): string {
    ReplaceAll(part, SpaceMarker, " ")
  }

  /** Every part with its spaces restored. */
  function Unprotected(parts: seq<string>): (r: seq<string>)
    ensures |r| == |parts|
    ensures forall i :: 0 <= i < |parts| ==> r[i] == Unprotect(parts[i])
  {
    if parts == [] then [] else Unprotected(parts[..|parts| - 1]) + [Unprotect(parts[|parts| - 1])]
  }

  /**
   * openCommandFor: no open command gives ("", []); otherwise the command
   * with the protected path injected is split on spaces and every part has
   * its spaces restored in place. None stands for the exit of
   * injectCommandWithMessage.
   */
  method OpenCommandFor(c: Configuration, filepath: string) returns (r: Option<Command>)
    ensures !c.openCommandGiven ==> r == Some(Command("", []))
    ensures c.openCommandGiven ==>
              match InjectCommandWithMessage(c.openCommand, Protect(filepath))
              case None => r.None?
              case Some(line) => r.Some? && [r.value.name] + r.value.args == Unprotected(Split(line, " "))
  {
    if !c.openCommandGiven {
      return Some(Command("", []));
    }
    var filepathWithoutSpaces := ReplaceAll(filepath, " ", SpaceMarker);
    var injected := InjectCommandWithMessage(c.openCommand, filepathWithoutSpaces);
    if injected.None? {
      return None;
    }
    var parts := Split(injected.value, " ");
    var split := UnprotectParts(parts);
    r := Some(Command(split[0], split[1..]));
    assert [split[0]] + split[1..] == split;
  }

  /** The loop of openCommandFor that restores the spaces of every part, one slot at a time. */
  method UnprotectParts(parts: seq<string>) returns (split: seq<string>)
    ensures split == Unprotected(parts)
  {
    split := parts;
    for i := 0 to |split|
      invariant |split| == |parts|
      invariant forall j :: 0 <= j < i ==> split[j] == Unprotect(parts[j])
      invariant forall j :: i <= j < |split| ==> split[j] == parts[j]
    {
      split := split[i := Unprotect(split[i])];
    }
    UnprotectedByIndex(parts, split);
  }

  lemma UnprotectedByIndex(parts: seq<string>, s: seq<string>)
    requires |s| == |parts| && forall j :: 0 <= j < |s| ==> s[j] == Unprotect(parts[j])
    ensures s == Unprotected(parts)
  {
  }

  /**
   * For an open command without placeholder or '&', and a path without
   * '&', the parts are the words of the command followed by the whole
   * path, spaces included; "cmd %s" gives the same.
   */
  lemma OpenCommandKeepsPath(command: string, path: string)
    requires !Contains(command, Placeholder) && '&' !in command && '&' !in path
    ensures InjectCommandWithMessage(command + " %s", Protect(path)) == InjectCommandWithMessage(command, Protect(path))
    ensures InjectCommandWithMessage(command, Protect(path)) == Some(command + " " + Protect(path))
    ensures Unprotected(Split(command + " " + Protect(path), " ")) == Split(command, " ") + [path]
  {
    var p := Protect(path);
    InjectAppendedPlaceholder(command, p);
    ProtectedPathIsOneWord(path);
    SplitBeforeLast(command, ' ', p);
    WordsStayUnprotected(command);
    UnprotectedAppend(Split(command, " "), p, path);
  }

  /** A path without '&' is protected into one word that unprotects back to the path. */
  lemma ProtectedPathIsOneWord(path: string)
    requires '&' !in path
    ensures ' ' !in Protect(path) && Unprotect(Protect(path)) == path
  {
    ReplaceCharRemoves(path, ' ', SpaceMarker);
    ReplaceAllRestores(path, ' ', SpaceMarker);
  }

  /** The words of a command without '&' are left alone by Unprotect. */
  lemma WordsStayUnprotected(command: string)
    requires '&' !in command
    ensures forall w | w in Split(command, " ") :: Unprotect(w) == w
  {
    SplitPartsLack(command, " ", '&');
    forall w | w in Split(command, " ")
      ensures Unprotect(w) == w
    {
      LacksFirstChar(w, SpaceMarker);
    }
  }

  lemma UnprotectedAppend(words: seq<string>, p: string, path: string)
    requires forall w | w in words :: Unprotect(w) == w
    requires Unprotect(p) == path
    ensures Unprotected(words + [p]) == words + [path]
  {
    var all := words + [p];
    forall i | 0 <= i < |all|
      ensures Unprotected(all)[i] == (words + [path])[i]
    {
      if i < |words| {
        assert all[i] == words[i] && words[i] in words;
      }
    }
  }

  // ------------------------------------------------------ argument scans

  predicate IsHelpArgument(a: string) {
    a == "help" || a == "--help" || a == "-h"
  }

  /** helpRequested: some argument asks for help. */
  method HelpRequested(parameter: seq<string>) returns (r: bool)
    ensures r <==> exists i :: 0 <= i < |parameter| && IsHelpArgument(parameter[i])
  {
    for i := 0 to |parameter|
      invariant forall j :: 0 <= j < i ==> !IsHelpArgument(parameter[j])
    {
      var element := parameter[i];
      if element == "help" || element == "--help" || element == "-h" {
        return true;
      }
    }
    return false;
  }

  /** containsAny: some value of `list` equals some of `elements`. */
  method ContainsAny(list: seq<string>, elements: seq<string>) returns (r: bool)
    ensures r <==> exists i, j :: 0 <= i < |list| && 0 <= j < |elements| && list[i] == elements[j]
  {
    for i := 0 to |list|
      invariant forall i', j :: 0 <= i' < i && 0 <= j < |elements| ==> list[i'] != elements[j]
    {
      for j := 0 to |elements|
        invariant forall j' :: 0 <= j' < j ==> list[i] != elements[j']
      {
        if list[i] == elements[j] {
          return true;
        }
      }
    }
    return false;
  }

  // ------------------------------------------------------------- reversal

  /** ReverseSlice: swaps from both ends towards the middle. */
  method ReverseSlice<T>(a: array<T>)
    modifies a
    ensures a[..] == Reversed(old(a[..]))
  {
    var i, j := 0, a.Length - 1;
    while i < j
      invariant 0 <= i <= a.Length && j == a.Length - 1 - i
      invariant forall k :: 0 <= k < i ==> a[k] == old(a[a.Length - 1 - k]) && a[a.Length - 1 - k] == old(a[k])
      invariant forall k :: i <= k <= j ==> a[k] == old(a[k])
    {
      a[i], a[j] := a[j], a[i];
      i, j := i + 1, j - 1;
    }
  }

  // -------------------------------------------------------- last commits

  /** The lines sayLastCommitsList prints: at most the first five log lines, oldest first. */
  function LastCommitLines(log: string): seq<string> {
    var lines := Split(log, "\n");
    Reversed(if |lines| > 5 then lines[..5] else lines)
  }

  /** sayLastCommitsList without the git log call and the output: truncates to 5, reverses, joins. */
  method LastCommitsList(log: string) returns (output: string)
    ensures output == Join(LastCommitLines(log), "\n")
  {
    var lines := Split(log, "\n");
    if |lines| > 5 {
      lines := lines[..5];
    }
    var a := new string[|lines|](k requires 0 <= k < |lines| => lines[k]);
    assert a[..] == lines;
    ReverseSlice(a);
    output := Join(a[..], "\n");
  }

  /**
   * git log lists the newest commit first, so the newest one is printed
   * last and the printed lines are the first at most five log lines read
   * from the back.
   */
  lemma LastCommitLinesOrder(log: string)
    ensures var r := LastCommitLines(log);
            var lines := Split(log, "\n");
            1 <= |r| <= 5 && r[|r| - 1] == lines[0] && r == Reversed(lines[..|r|])
  {
    var lines := Split(log, "\n");
    if |lines| <= 5 {
      assert lines[..|lines|] == lines;
    }
  }

  // --------------------------------------------------- remote wip branches

  /** The remote branches whose names contain one of the two patterns, in order. */
  function MatchingBranches(branches: seq<string>, withQualifier: string, noQualifier: string): seq<string> {
    if branches == [] then []
    else
      var b := branches[|branches| - 1];
      MatchingBranches(branches[..|branches| - 1], withQualifier, noQualifier)
      + (if Contains(b, withQualifier) || Contains(b, noQualifier) then [b] else [])
  }

  /** The remote wip branch of `base` with the qualifier of the configuration. */
  function RemoteWithQualifier(base: Branch, c: Configuration): string {
    Remote(AddWipQualifier(AddWipPrefix(base, c), c), c).name
  }

  /** The remote wip branch of `base` without qualifier; for master the legacy name. */
  function RemoteNoQualifier(base: Branch, c: Configuration): string {
    if base.name == Master then MobSession else Remote(AddWipPrefix(base, c), c).name
  }

  /** The filter of getWipBranchesForBaseBranch, over the remote branch list it is given. */
  method WipBranchesForBaseBranch(base: Branch, c: Configuration, remoteBranches: seq<string>) returns (result: seq<string>)
    ensures result == MatchingBranches(remoteBranches, RemoteWithQualifier(base, c), RemoteNoQualifier(base, c))
  {
    var remoteBranchWithQualifier := Remote(AddWipQualifier(AddWipPrefix(base, c), c), c).name;
    var remoteBranchNoQualifier := Remote(AddWipPrefix(base, c), c).name;
    if base.name == Master {
      remoteBranchNoQualifier := MobSession;
    }
    result := FilterBranches(remoteBranches, remoteBranchWithQualifier, remoteBranchNoQualifier);
  }

  /** The loop of getWipBranchesForBaseBranch: the remote branches containing either pattern, in order. */
  method FilterBranches(remoteBranches: seq<string>, withQualifier: string, noQualifier: string) returns (result: seq<string>)
    ensures result == MatchingBranches(remoteBranches, withQualifier, noQualifier)
  {
    result := [];
    for i := 0 to |remoteBranches|
      invariant result == MatchingBranches(remoteBranches[..i], withQualifier, noQualifier)
    {
      assert remoteBranches[..i + 1][..i] == remoteBranches[..i];
      var remoteBranch := remoteBranches[i];
      if Contains(remoteBranch, withQualifier) || Contains(remoteBranch, noQualifier) {
        result := result + [remoteBranch];
      }
    }
    assert remoteBranches[..|remoteBranches|] == remoteBranches;
  }

  /** A remote branch is kept as often as it occurs exactly when it contains one of the patterns. */
  lemma {:induction false} MatchingBranchesCount(branches: seq<string>, q: string, n: string, x: string)
    ensures multiset(MatchingBranches(branches, q, n))[x] ==
              if Contains(x, q) || Contains(x, n) then multiset(branches)[x] else 0
    decreases |branches|
  {
    if branches != [] {
      var init := branches[..|branches| - 1];
      MatchingBranchesCount(init, q, n, x);
      assert branches == init + [branches[|branches| - 1]];
    }
  }

  /** The filter keeps the order of the list: it commutes with concatenation. */
  lemma {:induction false} MatchingBranchesConcat(a: seq<string>, b: seq<string>, q: string, n: string)
    ensures MatchingBranches(a + b, q, n) == MatchingBranches(a, q, n) + MatchingBranches(b, q, n)
    decreases |b|
  {
    if b == [] {
      assert a + b == a;
    } else {
      assert (a + b)[..|a + b| - 1] == a + b[..|b| - 1];
      MatchingBranchesConcat(a, b[..|b| - 1], q, n);
    }
  }
}
