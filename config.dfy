/**
 * The settings the modelled functions read. The configuration package of
 * the tool is not part of this model: settings that it derives (whether a
 * custom qualifier is configured, the qualifier suffix, whether an open
 * command is given) are plain fields here.
 */
module Config {

  /** What `start` does with uncommitted changes. */
  datatype UncommittedChangesPolicy = FailWithError | DiscardChanges | IncludeChanges

  /** How `done` integrates the wip branch. */
  datatype DoneSquashMode = Squash | NoSquash | SquashWip

  datatype Configuration = Configuration(
    remoteName: string,
    wipBranchPrefix: string,
    wipBranchQualifierSeparator: string,
    customWipBranchQualifierConfigured: bool,
    wipBranchQualifierSuffix: string,
    wipCommitMessage: string,
    openCommandGiven: bool,
    openCommand: string,
    gitHooksEnabled: bool,
    handleUncommittedChanges: UncommittedChangesPolicy,
    startJoin: bool,
    startCreate: bool,
    hasCustomCommitMessage: bool,
    requireCommitMessage: bool,
    nextStay: bool,
    doneSquash: DoneSquashMode,
    stashName: string
  )
}
