/** The records the inspector passes around: a rule as written in a `.rules` file, the
    rule with its provenance, and the attributes of one running process. */
module Models {
  import opened Wrappers
  import opened Paths

  /** One rule object of a `.rules` file; every field is optional. The JSON field
      `type` is `ruleType` here. */
  datatype RuleRecord = RuleRecord(
    name: Option<string>,
    ruleType: Option<string>,
    nice: Option<int>,
    latencyNice: Option<int>,
    sched: Option<string>,
    rtprio: Option<int>,
    ioclass: Option<string>,
    oomScoreAdj: Option<int>,
    cgroup: Option<string>)

  /** A rule with the comment block that precedes it, the file it came from and
      whether a later rule overrides it. */
  datatype EnrichedRule = EnrichedRule(
    data: RuleRecord,
    contextComment: Option<string>,
    sourceFile: Path,
    shadowed: bool)

  /** What the inspector reads about one running process. */
  datatype ProcessInfo = ProcessInfo(
    pid: int,
    name: string,
    nice: Option<int>,
    oomScoreAdj: Option<int>,
    cgroup: Option<string>,
    schedPolicy: Option<string>,
    rtprio: Option<int>,
    ioclass: Option<string>,
    latencyNice: Option<int>)
}
