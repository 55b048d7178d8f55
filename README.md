# mob: a verified model of its core

`mob` is a command-line tool for remote mob programming on top of git. A
session has a *base* branch (say `main`) and a *wip* branch (`mob/main`, or
`mob/main-<qualifier>`). The typist starts or joins a session with `mob
start`, hands over with `mob next` (commit, push, show the next typist) and
ends it with `mob done` (merge the wip branch into the base branch and
delete it). This project models, in Dafny, the logic of the tool that does
not depend on running git:

- how a branch name, the local branch list and the naming settings give the
  pair of base and wip branches, and whether one is mob programming
  (`branches.dfy`, with Go's `strings` functions in `go_strings.dfy` and the
  settings record in `config.dfy`);
- the text builders and parsers of `mob.go`: the stash lookup, the
  `lastFile:` tag of wip commits, the `git status --porcelain` parser, the
  open command, the `%s` injection, the argument scans, the reversal of the
  last commits and the filter of remote wip branches (`text.dfy`);
- the order of guards and git steps of `start`, `next` and `done`, as
  functions from what each command observes to the steps it takes and the
  outcome it reports (`lifecycle.dfy`);
- git version parsing and comparison, the removal of empty arguments and the
  hooks option of `git/git.go` (`git.dfy`);
- the next-typist predictor and the co-author helpers, whose code is not part
  of this model, as functions that meet every case of their unit tests
  (`findnext.dfy`, `coauthors.dfy`).

Loops of the source are methods with loop invariants, each proved equal to
a function that the lemmas reason about. In-place algorithms work on
arrays: `ReverseSlice` and the sort by length. Git queries, the clock and the
file system are parameters.

Where the model decides something the source leaves open, it says so:

- The version regex of `ParseVersion` is replaced by a scanner.
  `MajorGroupAtFirstDigit` argues that the leftmost match of
  `(?:git)?(?: version )?(\d+)…` reads its major group at the first digit.
- The predictor's code is not part of this model. Once a round has closed,
  the model collects newcomers until there are as many as the round has
  members. Collection stops early when `self` commits again. The last
  newcomer collected is predicted even when the window was cut short.
- The co-author aggregation is not part of this model either. The model
  leaves out the entries that end in `<email>` of the user running `done`.
  It then removes duplicates and sorts by length.

## Model

| member | source | states |
|---|---|---|
| Branches.NewBranch | mob.go:59-63 | the name is trimmed of white space, no longer than the input, and unchanged when already trimmed |
| Branches.IsWipBranch | mob.go:106-112 | a branch is a wip branch exactly when it is `mob-session` or starts with the wip prefix |
| Branches.AddSuffix | mob.go:125-127 | the result starts with the branch name and ends with the suffix |
| Branches.RemovePrefix | mob.go:133-138 | a prefixed name is the prefix followed by the result; an unprefixed name is returned unchanged |
| Branches.RemovePrefixOfPrefixed | mob.go:133-138 | removing `p` from `p + x` gives `x` |
| Branches.RemoveFromSeparator | mob.go:161-163 | the name is cut at the last occurrence of the separator (then trimmed), and either stays the same or gets shorter |
| Branches.RemoveWipQualifierSuffix | mob.go:165-170 | a name ending in the qualifier suffix loses it; another name is unchanged; the name never grows |
| Branches.RemoveWipQualifierSuffixOrSeparator | mob.go:153-159 | one removal step leaves the branch as it is or strictly shortens its name, which is why the stripping loop ends |
| Branches.TrimmedPrefixProgress | mob.go:140-151 | trimming a prefix of a name yields the same branch or a strictly shorter name |
| Branches.StripQualifiers | mob.go:140-151 | on exit the name is a local branch, has no separator, or the last removal changed nothing; an existing local branch is kept; the name never grows |
| Branches.RemoveWipQualifier | mob.go:140-151 | the loop with its break computes StripQualifiers |
| Branches.StringContains | mob.go:202-210 | the flag is set exactly when the element is in the list |
| Branches.DetermineBranches | mob.go:416-435 | the current branch is base or wip of the pair, so the panic cannot be reached; the legacy case gives (master, mob-session); a wip branch is the wip of its pair with a base no longer than it; another branch is the base |
| Branches.NonWipBranchGetsPrefixedWip | mob.go:424-426 | a non-wip branch is the base and its wip branch is the prefix followed by the name, with the qualifier suffix only when one is configured |
| Branches.QualifiedName | mob.go:118-127 | the name with the optional qualifier suffix starts with the base name and holds no white space |
| Branches.ResolveWip | mob.go:421-423 | on a wip branch the base is the name without prefix and without qualifiers, and the wip branch is the current one |
| Branches.WipPrefixRemoved | mob.go:129-138 | a prefixed name is a wip branch and removing the prefix gives back the rest |
| Branches.StripReachesBase | mob.go:140-170 | stripping the qualifier of `base + suffix` stops at the base branch when that is a local branch |
| Branches.WipBranchRoundTrip | mob.go:416-426 | the wip branch of a base branch resolves back to the same pair |
| Branches.BaseDiffersFromWip | mob.go:416-426 | with a visible wip prefix the two branches of a pair always differ |
| Branches.WipNameIsLonger | mob.go:114-123 | adding a visible prefix, and the qualifier, makes the name strictly longer |
| Branches.IsMobProgrammingIff | mob.go:1024-1029 | one is mob programming exactly on `mob-session` or on a prefixed branch other than the legacy `master` |
| Branches.IsMobProgramming | mob.go:1024-1029 | one is mob programming when the current branch is the wip branch of its pair; IsMobProgrammingIff says when that is |
| Branches.Remote | mob.go:73-75 | for names without white space the remote-tracking branch is `<remote>/<name>` |
| Branches.AddWipPrefix | mob.go:114-116 | for names without white space the wip prefix followed by the name |
| Branches.AddWipQualifier | mob.go:118-123 | unchanged without a configured qualifier; with one, for names without white space, the name followed by the qualifier suffix |
| Branches.RemoveWipPrefix | mob.go:129-131 | for a prefixed name without white space, the prefix followed by the result is the name |
| Branches.HasWipBranchQualifierSeparator | mob.go:176-178 | the separator occurs in the name; it is the guard of the stripping loop, whose exit StripQualifiers states |
| GoStrings.Index | mob.go:106-112 | strings.Index: the first occurrence, -1 exactly when there is none |
| GoStrings.LastIndex | mob.go:161-163 | strings.LastIndex: the last occurrence, -1 exactly when there is none |
| GoStrings.TrimSpace | mob.go:59-63 | strings.TrimSpace: the slice without the leading and trailing white space, itself trimmed |
| GoStrings.SplitCount | mob.go:649-656 | strings.Split gives one more part than there are occurrences of the separator |
| GoStrings.JoinSplit | mob.go:998-1004 | Join undoes Split |
| GoStrings.Count | mob.go:438-439 | strings.Count is zero exactly when the pattern does not occur |
| GoStrings.ReplaceAllRestores | mob.go:41-44 | replacing a character by a marker and back restores a string that lacks the marker's first character, as `&spc&` does for a path without `&` |
| GoStrings.Contains | mob.go:176-178 | strings.Contains through Index: true exactly when the pattern occurs somewhere, by Index's contract and ContainsIff |
| GoStrings.Split | mob.go:42 | strings.Split gives at least one part; JoinSplit, SplitCount and SplitPartsLackSeparator state what the parts are |
| GoStrings.Join | mob.go:1004 | strings.Join; JoinSplit states that it undoes Split |
| GoStrings.ReplaceAll | mob.go:41 | strings.ReplaceAll leaves a string without the pattern unchanged; ReplaceAllRestores states the round trip of the space marker |
| MobText.FirstMatchFrom | mob.go:767-776 | the index of the first line containing the stash name, or the number of lines |
| MobText.FindStashByName | mob.go:767-776 | the result is the text before the first `:` of the first line naming the stash, or "unknown" when no line does |
| MobText.TextBeforeFirst | mob.go:772 | slicing up to the first `:` gives text that holds no `:` and is followed by one |
| MobText.CreateWipCommitMessage | mob.go:824-834 | the message is the configured one when there is no path, and otherwise starts with it and ends with `lastFile:` and the path |
| MobText.ParseLastFile | mob.go:649-665 | no tag exactly when the message lacks `lastFile:`; ambiguous exactly when it occurs more than once; a path found is non-empty, on one line and unquoted |
| MobText.LastFileRoundTrip | mob.go:649-658 | the parser reads back the path createWipCommitMessage appended, or hands a quoted one to Unquote, for a message and path without the tag and a path without newline |
| MobText.TaggedPathIsAmbiguous | mob.go:653-656 | a path that itself holds the tag makes the parser report the separator as used more than once |
| MobText.GetModifiedFiles | mob.go:885-899 | the loop collects ModifiedPaths of the lines, each path trimmed |
| MobText.ModifiedPaths | mob.go:885-899 | the paths of the porcelain lines; ModifiedPathsMembers and ModifiedPathsConcat state which paths and in which order |
| MobText.ModifiedPathsMembers | mob.go:888-897 | a path is collected exactly when an `M` or `A` line yields it |
| MobText.ModifiedPathsConcat | mob.go:885-899 | the parser keeps line order: it commutes with concatenation |
| MobText.InjectCommandWithMessage | mob.go:437-447 | the exit happens exactly when the command holds more than one `%s` |
| MobText.InjectAppendedPlaceholder | mob.go:443-446 | without `%s` the message is appended after a space, and `cmd %s` gives the same line |
| MobText.InjectReplacesPlaceholder | mob.go:446 | a command holding one `%s`, wherever it stands, gets the message in its place |
| MobText.TwoPlaceholdersExit | mob.go:439-441 | `open %s %s` makes the injection exit |
| MobText.Unprotected | mob.go:43-45 | every part has its spaces restored, in place and in order |
| MobText.UnprotectParts | mob.go:43-45 | the loop over split computes Unprotected |
| MobText.OpenCommandFor | mob.go:37-47 | no open command gives ("", []); otherwise the command name and arguments are the parts of the injected line with spaces restored, or the exit of the injection |
| MobText.OpenCommandKeepsPath | mob.go:37-47 | for a command without `%s` or `&` and a path without `&`, the arguments end with the whole path, spaces included |
| MobText.ProtectedPathIsOneWord | mob.go:41 | a protected path holds no space and unprotects back to the path |
| MobText.HelpRequested | mob.go:366-374 | true exactly when some argument is `help`, `--help` or `-h` |
| MobText.ContainsAny | mob.go:618-627 | true exactly when some value of the list equals some element |
| MobText.ReverseSlice | mob.go:1008-1014 | the array holds its old contents reversed |
| MobText.LastCommitsList | mob.go:998-1004 | the output joins with newlines the first at most five log lines, reversed |
| MobText.LastCommitLinesOrder | mob.go:998-1004 | one to five lines are printed, the newest commit last, as the first log lines read from the back |
| MobText.WipBranchesForBaseBranch | mob.go:710-729 | the result is the remote branches containing the qualified or the unqualified remote wip name (`mob-session` for master), in order |
| MobText.FilterBranches | mob.go:721-726 | the loop computes MatchingBranches |
| MobText.MatchingBranchesCount | mob.go:721-726 | a branch is kept as often as it occurs exactly when it contains a pattern, otherwise never |
| MobText.MatchingBranchesConcat | mob.go:721-726 | the filter keeps order: it commutes with concatenation |
| MobText.MatchingBranches | mob.go:721-726 | the remote branches the loop keeps; MatchingBranchesCount and MatchingBranchesConcat state which and in which order |
| MobText.LastCommitLines | mob.go:998-1003 | the lines sayLastCommitsList prints; LastCommitLinesOrder states their number and order |
| Lifecycle.Prepare | mob.go:518-543 | the steps before the last guard: first the fetch, the upstream push only with `--create` and no remote base, the hard reset only under DiscardChanges |
| Lifecycle.EnterSession | mob.go:545-571 | stash push first and stash pop last under IncludeChanges, the join or creation of the session between them, the fast-forward only when not yet on the wip branch |
| Lifecycle.Start | mob.go:508-579 | a clean tree is required exactly under FailWithError with changes, before any step; every error returns before any step that changes the working copy; a missing remote wip branch fails only under `--join`, a missing remote base only without `--create`; a started session takes exactly the listed steps |
| Lifecycle.Next | mob.go:778-806 | off the wip branch only a hint; the missing commit message stops it before any step; otherwise it commits only with changes, pushes when there was something to push, shows the next typist, and checks out the base unless asked to stay |
| Lifecycle.SquashMerge | mob.go:983-989 | `--squash` exactly in Squash mode |
| Lifecycle.Integrate | mob.go:921-934 | the steps up to the merge: the fetch first, the SquashWip rewrite only in that mode, the wip commit only with changes, the push, the checkout of the base and the merge last |
| Lifecycle.CloseSession | mob.go:943-959 | delete the local wip branch first, undo the last commit only with changes and without Squash, delete the remote wip branch, add co-authors |
| Lifecycle.Done | mob.go:911-973 | off the wip branch only a hint; a missing remote wip branch gives exactly checkout, delete and pull; a failed merge returns before the deletions; a successful one takes exactly the listed steps |
| Lifecycle.StartStashesAroundSession | mob.go:545-571 | under IncludeChanges the stash is pushed before the session step and popped after it |
| Lifecycle.DoneOrder | mob.go:930-949 | a finished done pushes before merging, merges before deleting, deletes the local branch before the remote one |
| Lifecycle.NextOrder | mob.go:791-805 | a finished next commits before pushing and ends on the base branch unless asked to stay |
| Lifecycle.SessionRoundTrip | mob.go:911-936 | start on a base branch creates its wip branch, and a successful done on that wip branch checks the same base out and merges the wip branch into it |
| Git.Atoi | git/git.go:249-267 | strconv.Atoi on digit strings: accepted exactly for a non-empty run of digits within the int range, with its decimal value |
| Git.ScanDigits | git/git.go:245-246 | the loop stops at the end of the run of digits |
| Git.SkipNonDigits | git/git.go:245-246 | the loop stops at the first digit |
| Git.MatchVersion | git/git.go:245-246 | the scanner gives VersionGroups |
| Git.MajorGroupAtFirstDigit | git/git.go:245-246 | every match of the regex that starts no later than the first digit reads its major group there, and one exists |
| Git.NoDigitNoMatch | git/git.go:245-249 | a string without digits admits no match |
| Git.ParseVersion | git/git.go:242-270 | the fields are filled as VersionOf states: 0 for a group Atoi rejects, with the early returns after major and minor |
| Git.VersionOfPrinted | git/git.go:242-270 | `major.minor.patch` printed after text without digits, and before text not starting with a digit, parses back to the same version |
| Git.VersionOfParts | git/git.go:242-270 | three digit runs in that layout give their decimal values |
| Git.WindowsVersionString | git/git.go:243-244 | `git version 2.38.1.windows.1` parses to {2, 38, 1} |
| Git.MinimumVersionString | mob.go:29 | the minimum version `2.13.0` parses to {2, 13, 0} |
| Git.ShortVersionStrings | git/git.go:244-268 | the forms `x` and `x.y` parse with the missing parts set to 0 |
| Git.NoDigitsParsesToZero | git/git.go:246-269 | a string without digits parses to {0, 0, 0} |
| Git.LessIsLexicographic | git/git.go:272-276 | Less is the lexicographic order on (major, minor, patch) |
| Git.LessIsStrictTotalOrder | git/git.go:272-276 | Less is irreflexive, transitive, asymmetric and total on distinct versions |
| Git.Less | git/git.go:272-276 | the version order; LessIsLexicographic and LessIsStrictTotalOrder state what it is |
| Git.VersionOf | git/git.go:242-270 | the version a string parses to; ParseVersion computes it, and VersionOfPrinted, ShortVersionStrings and NoDigitsParsesToZero state its values |
| Git.HooksOption | git/git.go:157-163 | the hooks option; PushArgumentsWithHooksOption states its effect on a push |
| Git.NonEmptyEntries | git/git.go:278-286 | the entries deleteEmptyStrings keeps; NonEmptyEntriesCount and NonEmptyEntriesConcat state which and in which order |
| Git.FirstDigitSpec | git/git.go:245 | the scan passes no digit and stops at a digit or the end |
| Git.DigitsEndSpec | git/git.go:245 | the scan passes only digits and stops at a non-digit or the end |
| Git.DeleteEmptyStrings | git/git.go:278-286 | the loop gives NonEmptyEntries |
| Git.NonEmptyEntriesConcat | git/git.go:278-286 | the entries keep their order: the filter commutes with concatenation |
| Git.NonEmptyEntriesCount | git/git.go:278-286 | each non-empty entry is kept as often as it occurs, and no empty one |
| Git.PushArgumentsWithHooksOption | git/git.go:157-163 | with hooks enabled the empty option is dropped from a push, otherwise `--no-verify` is passed |
| Sequences.Reversed | mob.go:1008-1014 | the reversal has the same length and reads the input from the back |
| FindNext.SkipSelf | findnext/findnext_test.go:27-43 | the index past the leading commits of `self` |
| FindNext.ScanRoundStops | findnext/findnext_test.go:81-97 | the round closes at the next commit of `self`, or the list ends, and passes no commit of `self` |
| FindNext.ScanRoundCovers | findnext/findnext_test.go:90-97 | every author passed is in the round, repeats included |
| FindNext.ScanRoundDistinct | findnext/findnext_test.go:72-97 | the round lists each author once and never `self` |
| FindNext.ScanRoundMembers | findnext/findnext_test.go:54-97 | the round holds only authors the scan passed |
| FindNext.ScanNewcomersSpec | findnext/findnext_test.go:99-124 | at most as many newcomers as the round has members, none of them in the round or `self`, each once, all taken from the list after the round |
| FindNext.OnlySelfPredictsNothing | findnext/findnext_test.go:9-43 | a list holding only `self`, or nothing, predicts ("", nil) |
| FindNext.PredictsAnotherAuthor | findnext/findnext_test.go:45-124 | once someone else committed, the prediction is another author of the list |
| FindNext.HistoryOfClosedRound | findnext/findnext_test.go:81-124 | a history ends with `self`, lists each author once and only authors of the list, and starts with the prediction unless a newcomer, absent from it, was predicted |
| FindNext.ClosedRoundHistory | findnext/findnext_test.go:81-88 | the history of a closed round is the round oldest first, then `self`, each once |
| FindNext.FindNextTypist | findnext/findnext_test.go:9-124 | the predictor; OnlySelfPredictsNothing, PredictsAnotherAuthor, OpenRoundPrediction and HistoryOfClosedRound state its result |
| FindNext.ScanRound | findnext/findnext_test.go:54-97 | the round scan stops within the list; ScanRoundStops, ScanRoundCovers, ScanRoundDistinct and ScanRoundMembers state what the round holds |
| FindNext.ScanNewcomers | findnext/findnext_test.go:99-124 | the newcomer scan keeps the newcomers already collected; ScanNewcomersSpec states the rest |
| FindNext.ScanRoundWaitedLongest | findnext/findnext_test.go:54-70 | the last member an open round's scan adds is the author who has waited longest since their last commit |
| FindNext.OpenRoundPrediction | findnext/findnext_test.go:54-70 | when `self` does not commit again once someone else has, there is no history and the prediction is the author who has waited longest |
| FindNext.NoCommits | findnext/findnext_test.go:9-16 | no commits predict ("", nil) |
| FindNext.OnFirstCommit | findnext/findnext_test.go:18-25 | one commit of alice predicts ("", nil) |
| FindNext.StartingWithFirstCommitterTwice | findnext/findnext_test.go:27-34 | two commits of alice predict ("", nil) |
| FindNext.OnlyCurrentCommitterInList | findnext/findnext_test.go:36-43 | three commits of alice predict ("", nil) |
| FindNext.CurrentCommitterAlternatingWithOneOtherPerson | findnext/findnext_test.go:45-52 | alternating alice and bob predicts bob with history [bob, alice] |
| FindNext.CommitterFirstSeenInFirstRound | findnext/findnext_test.go:54-61 | an open round alice, bob, craig predicts craig without history |
| FindNext.SecondCommitterFirstSeenRunningSession | findnext/findnext_test.go:63-70 | alice, bob, craig, bob predicts craig without history |
| FindNext.CurrentCommitterCommittedBefore | findnext/findnext_test.go:72-79 | alice, alice, bob, alice predicts bob with history [bob, alice] |
| FindNext.ThreeCommitters | findnext/findnext_test.go:81-88 | alice, bob, craig, alice predicts craig with history [craig, bob, alice] |
| FindNext.IgnoreMultipleCommitsFromSamePerson | findnext/findnext_test.go:90-97 | the repeated craig is ignored: craig with history [craig, bob, alice] |
| FindNext.RoundOfBobAndCraig | findnext/findnext_test.go:99-124 | after alice, bob, craig, alice the round is [bob, craig], closed at index 3 |
| FindNext.SuggestCommitterBeforeLastCommit | findnext/findnext_test.go:99-106 | the newcomer dan is predicted, history unchanged |
| FindNext.SuggestCommitterBeforeLastCommitInThreshold | findnext/findnext_test.go:108-115 | the window of two newcomers ends at erik, not fin |
| FindNext.IgnoreCommitterBeforeLastCommitOutsideThreshold | findnext/findnext_test.go:117-124 | alice returning before any newcomer leaves craig predicted |
| Coauthors.CreateCommitMessage | coauthors/coauthors_test.go:8-20 | the message starts with the header (two empty lines, then the two comment lines) and ends with a newline |
| Coauthors.TrailerLines | coauthors/coauthors_test.go:8-20 | one `Co-authored-by:` line per author, in input order |
| Coauthors.CommitMessageLines | coauthors/coauthors_test.go:8-20 | the lines of the message are two empty lines, the two comments, one `Co-authored-by:` line per author in order, and the empty rest after the last newline, for authors without newlines |
| Coauthors.PrefixedLines | coauthors/coauthors_test.go:8-20 | text followed by the newline-prefixed author lines splits into the text's lines and then one line per author |
| Coauthors.TrailersAsPrefixed | coauthors/coauthors_test.go:8-20 | newline-terminated lines, read as newline-prefixed ones |
| Coauthors.CreateCommitMessageExample | coauthors/coauthors_test.go:8-20 | the message for Alice and Bob is the expected text |
| Coauthors.TwoAuthorsMessage | coauthors/coauthors_test.go:8-20 | the message for two authors is the header followed by their two lines |
| Coauthors.SortByLength | coauthors/coauthors_test.go:22-31 | the array is sorted in place by non-decreasing length, as a permutation of its old contents |
| Coauthors.InsertByLength | coauthors/coauthors_test.go:22-31 | inserting the next element extends the sorted prefix by one, leaves the elements after it as they were, and keeps the contents a permutation |
| Coauthors.SwapDown | coauthors/coauthors_test.go:22-31 | one swap of neighbours, which keeps the contents a permutation |
| Coauthors.SortedWithDistinctLengthsIsUnique | coauthors/coauthors_test.go:22-31 | with distinct lengths only one ordering is sorted, so the sort's result is determined |
| Coauthors.SortByLengthExample | coauthors/coauthors_test.go:22-31 | [aa, b] becomes [b, aa] |
| Coauthors.SortedExample | coauthors/coauthors_test.go:22-31 | the only sorted permutation of [aa, b] is [b, aa] |
| Coauthors.RemoveDuplicateValues | coauthors/coauthors_test.go:33-42 | no duplicates, the same values as the input, never longer |
| Coauthors.KeepsFirstOccurrenceOrder | coauthors/coauthors_test.go:33-42 | the values come in the order of their first occurrence in the input |
| Coauthors.RemoveDuplicateValuesExample | coauthors/coauthors_test.go:33-42 | [aa, b, c, b] becomes [aa, b, c] |
| Coauthors.OtherAuthors | coauthors_test.go:42-43 | exactly the authors other than the entry ending in the user's `<email>` |
| Coauthors.CoauthorsBlock | coauthors_test.go:42-45 | the block lists each other author once, sorted by length, and nothing else |
| Coauthors.SessionOtherAuthors | coauthors_test.go:8-43 | the user running done is dropped from the log of the session |
| Coauthors.SessionDuplicatesRemoved | coauthors_test.go:44-45 | the second alice is dropped |
| Coauthors.SessionSorted | coauthors_test.go:44-45 | sorted by length the session's co-authors are bob, alice, localother |
| Coauthors.SessionCoauthors | coauthors_test.go:8-45 | for any names of these lengths, local is excluded and the trailer lists bob, alice, localother |
| Coauthors.StartDoneCoauthorsExample | coauthors_test.go:8-45 | the session of the end-to-end case gives the trailer bob, alice, localother without local |
| Coauthors.OwnEntryOfLocal | coauthors_test.go:42-43 | local's entry ends in `<local@example.com>` |
| Coauthors.OtherEntries | coauthors_test.go:44-45 | the other three entries do not |

## Left out

- Process I/O and git: every git query is an input. `start`, `next` and `done` take their observations and the branch pair as parameters. Their git steps are named, not carried out.
- `hasRemoteBranch`, `hasLocalBranch`, `hasLocalCommits`, `gitBranches` and the other git queries are observations. A panic of `hasUnpushedCommits` on output Atoi rejects is not modelled.
- The CLI: `run`, `execute`, `moo`, `clean`, `reset`, `branch`, `showNext` and its check of the git user name, the timer and `timer-remote.go` (network), and `startCommand` with its background processes.
- `getPathOfLastModifiedFile`: it reads modification times through `os.Stat`. The path is a parameter of CreateWipCommitMessage.
- `strconv.Unquote` of quoted file names: ParseLastFile returns the quoted name as NeedsUnquote.
- `fmt.Sprintf` verbs other than one `%s` in injectCommandWithMessage. The exit on more than one is the None result.
- Creating, reading and appending to the squash message file in `done`. The step AppendCoauthors stands for it.
- MobText.FindStashByName: its requires excludes a matching line without `:`, on which the source's slice panics.
- Branches.RemoveFromSeparator: its requires excludes a name without the separator, on which the source's slice panics. removeWipQualifier calls it only on names that hold the separator.
- Failing git commands: the source exits the process when a git command fails. Every step is modelled as succeeding, except the merge of `done`, whose failure is an observation.
- Git.Atoi: the range error is modelled for a 64-bit `int` (MaxInt is 2^63 - 1); a 32-bit platform's smaller range is not modelled.
- Nil versus empty slices: a nil history and an empty one are both `[]`.
- Coauthors.SortByLength: sort.Slice is not stable, and the model is an insertion sort. Only sortedness and the permutation are claimed, and uniqueness when the lengths differ.
- Coauthors.CoauthorsBlock: the aggregation code is not part of this model. The exclusion predicate and the order of the steps (exclude, remove duplicates, sort) are chosen to match the end-to-end case.
- MobText.UnprotectParts: the Go slice from strings.Split is modelled as a sequence updated slot by slot. No aliasing is modelled.
- GoStrings.Split: its own contract only says there is at least one part. Its meaning is carried by JoinSplit, SplitCount, SplitAtFirst and the other lemmas beside it.
- Unicode: strings are sequences of code points. TrimSpace uses the white space set of unicode.IsSpace, and there is no encoding or normalisation.
- The configuration package is not part of this model. Derived settings (custom qualifier configured, qualifier suffix, open command given) are plain fields.
