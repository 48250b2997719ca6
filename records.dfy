/** The records the tool reads from its local storage (src/types.ts): the
    challenge catalog and the user's completion records. */
module Records {
  import opened Basics

  /** One entry of the challenge catalog (`IChallenge`). An absent
      `childrenNames` is the empty sequence. */
  datatype ChallengeRecord = ChallengeRecord(
    name: string,
    labelText: string,
    level: int,
    kind: string,
    tags: seq<string>,
    childrenNames: seq<string>,
    enabled: bool,
    description: string)

  /** One line of a gas report (`IGasReport`). */
  datatype GasEntry = GasEntry(functionName: string, gasUsed: int)

  /** One completion record of the user (`IUserChallenge`); the fields the
      core never reads (feedback, timestamp, network) are not kept. */
  datatype CompletionRecord = CompletionRecord(
    challengeName: string,
    status: string,
    gasReport: Option<seq<GasEntry>>)
}
