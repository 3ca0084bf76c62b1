/** The one domain entity: an immutable snapshot of a commit. */
module Commits {

  /** A commit as the collector builds it. The field order is the order of the
      all-arguments constructor; every field is final and has only a getter
      (the destructors), and the two lists are modelled as values. Sequences
      keep the order and the duplicates they were given. */
  datatype CommitNode = CommitNode(
    commitHash: string,
    commitMessage: string,
    modifiedFiles: seq<string>,
    parentHashes: seq<string>)
}
