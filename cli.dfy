/** The reconciliation shown for each search result: the rule's category, its name
    with the first matching process, the shadowed marker, and the status line that
    compares the rule's settings with what the first matching process actually has.

    Each comparison gives a verdict: the values agree, they differ (showing the
    process's value and the wanted one), only the process has a value (showing it),
    or there is nothing to show. Colours, translations and printing are not modelled. */
module Cli {
  import opened Wrappers
  import opened Text
  import opened Paths
  import opened Models
  import opened ProcessService
  import RuleParsing

  datatype Verdict = Agrees | Differs(had: string, wanted: string) | InfoOnly(had: string) | Silent

  // ---------------------------------------------------------------------------
  // Comparators
  // ---------------------------------------------------------------------------

  /** Compares an integer setting; both values are shown in decimal. */
  function CheckI32(want: Option<int>, have: Option<int>): (v: Verdict)
    ensures v.Agrees? <==> want.Some? && have.Some? && want.value == have.value
    ensures v.Differs? <==> want.Some? && have.Some? && want.value != have.value
    ensures v.Silent? <==> have.None?
  {
    if want.Some? && have.Some? then
      if want.value == have.value then Agrees else Differs(IntToString(have.value), IntToString(want.value))
    else if want.None? && have.Some? then InfoOnly(IntToString(have.value))
    else Silent
  }

  /** Compares a textual setting, ignoring ASCII case. */
  function CheckStr(want: Option<string>, have: Option<string>): (v: Verdict)
    ensures v.Agrees? <==> want.Some? && have.Some? && ToLowerAscii(want.value) == ToLowerAscii(have.value)
    ensures v.Differs? <==> want.Some? && have.Some? && ToLowerAscii(want.value) != ToLowerAscii(have.value)
    ensures v.Silent? <==> have.None?
  {
    if want.Some? && have.Some? then
      EqIgnoreAsciiCaseIsFoldedEquality(want.value, have.value);
      if EqIgnoreAsciiCase(want.value, have.value) then Agrees else Differs(have.value, want.value)
    else if want.None? && have.Some? then InfoOnly(have.value)
    else Silent
  }

  /** Compares cgroup paths, ignoring ASCII case, on the full paths; only the paths
      shown are shortened. */
  function CheckCgroup(want: Option<string>, have: Option<string>): (v: Verdict)
    ensures v.Silent? <==> have.None?
  {
    if want.Some? && have.Some? then
      if EqIgnoreAsciiCase(want.value, have.value) then Agrees
      else Differs(ShortenCgroup(have.value), ShortenCgroup(want.value))
    else if want.None? && have.Some? then InfoOnly(ShortenCgroup(have.value))
    else Silent
  }

  /** The cgroup comparison decides as the textual one does; it differs only in
      showing shortened paths. So two different cgroups whose short forms coincide are
      still reported as differing. */
  lemma CheckCgroupDecidesOnFullPaths(want: Option<string>, have: Option<string>)
    ensures CheckCgroup(want, have).Agrees? == CheckStr(want, have).Agrees?
    ensures CheckCgroup(want, have).Differs? == CheckStr(want, have).Differs?
    ensures CheckCgroup(want, have).InfoOnly? == CheckStr(want, have).InfoOnly?
    ensures CheckCgroup(want, have).Differs? ==>
              CheckCgroup(want, have) == Differs(ShortenCgroup(have.value), ShortenCgroup(want.value))
    ensures CheckCgroup(want, have).InfoOnly? ==> CheckCgroup(want, have) == InfoOnly(ShortenCgroup(have.value))
  {
    if want.Some? && have.Some? {
      EqIgnoreAsciiCaseIsFoldedEquality(want.value, have.value);
    }
  }

  /** Whether a textual setting agrees does not depend on which side is which, nor on
      the case of either side. */
  lemma CheckStrAgreementSymmetric(a: string, b: string)
    ensures CheckStr(Some(a), Some(b)).Agrees? == CheckStr(Some(b), Some(a)).Agrees?
    ensures CheckStr(Some(ToUpperAscii(a)), Some(b)).Agrees? == CheckStr(Some(a), Some(b)).Agrees?
  {
    LowerOfUpper(a);
  }

  /** A differing integer setting shows the process's value and the wanted one, each
      readable back as the integer it stands for. */
  lemma CheckI32ShowsValues(want: int, have: int)
    requires I32Min <= want <= I32Max && I32Min <= have <= I32Max
    requires want != have
    ensures var v := CheckI32(Some(want), Some(have));
            v.Differs? && ParseI32(v.had) == Some(have) && ParseI32(v.wanted) == Some(want)
  {
    ParseShowI32(want);
    ParseShowI32(have);
  }

  // ---------------------------------------------------------------------------
  // The status line
  // ---------------------------------------------------------------------------

  /** The compared attributes, in the order the status line lists them. */
  datatype Attr = Nice | LatNice | Sched | IO | OOM | Cgroup

  const AttrOrder: seq<Attr> := [Nice, LatNice, Sched, IO, OOM, Cgroup]

  function Rank(a: Attr): nat {
    match a
    case Nice => 0
    case LatNice => 1
    case Sched => 2
    case IO => 3
    case OOM => 4
    case Cgroup => 5
  }

  datatype Part = Part(attr: Attr, verdict: Verdict)

  /** Whether the rule sets the attribute. */
  predicate RuleHas(a: Attr, r: RuleRecord) {
    match a
    case Nice => r.nice.Some?
    case LatNice => r.latencyNice.Some?
    case Sched => r.sched.Some?
    case IO => r.ioclass.Some?
    case OOM => r.oomScoreAdj.Some?
    case Cgroup => r.cgroup.Some?
  }

  /** Whether the process has a value for the attribute. */
  predicate ProcessHas(a: Attr, p: ProcessInfo) {
    match a
    case Nice => p.nice.Some?
    case LatNice => p.latencyNice.Some?
    case Sched => p.schedPolicy.Some?
    case IO => p.ioclass.Some?
    case OOM => p.oomScoreAdj.Some?
    case Cgroup => p.cgroup.Some?
  }

  /** The comparison for one attribute: integers for the nice values and the OOM
      score, case-insensitive text for the policy and the IO class, cgroup paths for
      the cgroup. */
  function VerdictFor(a: Attr, r: RuleRecord, p: ProcessInfo): (v: Verdict)
    ensures v.Silent? <==> !ProcessHas(a, p)
    ensures v.InfoOnly? <==> !RuleHas(a, r) && ProcessHas(a, p)
  {
    CheckCgroupDecidesOnFullPaths(r.cgroup, p.cgroup);
    match a
    case Nice => CheckI32(r.nice, p.nice)
    case LatNice => CheckI32(r.latencyNice, p.latencyNice)
    case Sched => CheckStr(r.sched, p.schedPolicy)
    case IO => CheckStr(r.ioclass, p.ioclass)
    case OOM => CheckI32(r.oomScoreAdj, p.oomScoreAdj)
    case Cgroup => CheckCgroup(r.cgroup, p.cgroup)
  }

  /** The parts pushed before empty ones are dropped: in the order of `attrs`, one for
      each attribute that the rule or the process has a value for. */
  function Candidates(attrs: seq<Attr>, r: RuleRecord, p: ProcessInfo): (parts: seq<Part>)
    ensures |parts| <= |attrs|
    ensures forall part :: part in parts ==>
              part.attr in attrs && (RuleHas(part.attr, r) || ProcessHas(part.attr, p))
              && part.verdict == VerdictFor(part.attr, r, p)
    decreases |attrs|
  {
    if attrs == [] then []
    else
      (if RuleHas(attrs[0], r) || ProcessHas(attrs[0], p) then [Part(attrs[0], VerdictFor(attrs[0], r, p))] else [])
      + Candidates(attrs[1..], r, p)
  }

  /** The parts that are not empty, in order. */
  function NonEmpty(parts: seq<Part>): (kept: seq<Part>)
    ensures |kept| <= |parts|
    decreases |parts|
  {
    if parts == [] then []
    else (if parts[0].verdict.Silent? then [] else [parts[0]]) + NonEmpty(parts[1..])
  }

  /** The status line for a rule against one process. */
  function StatusLine(r: RuleRecord, p: ProcessInfo): (line: seq<Part>)
    ensures |line| <= |AttrOrder|
    ensures forall part :: part in line ==>
              ProcessHas(part.attr, p) && !part.verdict.Silent? && part.verdict == VerdictFor(part.attr, r, p)
  {
    NonEmptyCandidates(AttrOrder, r, p);
    ReferenceMembers(AttrOrder, r, p);
    NonEmpty(Candidates(AttrOrder, r, p))
  }

  /** Reference: the attributes of `attrs` that the process has a value for, each with
      its verdict. */
  function Reference(attrs: seq<Attr>, r: RuleRecord, p: ProcessInfo): seq<Part>
    decreases |attrs|
  {
    if attrs == [] then []
    else (if ProcessHas(attrs[0], p) then [Part(attrs[0], VerdictFor(attrs[0], r, p))] else [])
         + Reference(attrs[1..], r, p)
  }

  lemma {:induction false} NonEmptyAppend(a: seq<Part>, b: seq<Part>)
    ensures NonEmpty(a + b) == NonEmpty(a) + NonEmpty(b)
    decreases |a|
  {
    if a != [] {
      NonEmptyAppend(a[1..], b);
      assert (a + b)[0] == a[0] && (a + b)[1..] == a[1..] + b;
    } else {
      assert a + b == b;
    }
  }

  /** Dropping the empty parts leaves, for every attribute, a part exactly when the
      process has a value for it, whatever the rule sets. */
  lemma {:induction false} NonEmptyCandidates(attrs: seq<Attr>, r: RuleRecord, p: ProcessInfo)
    ensures NonEmpty(Candidates(attrs, r, p)) == Reference(attrs, r, p)
    decreases |attrs|
  {
    if attrs != [] {
      var a := attrs[0];
      var head := if RuleHas(a, r) || ProcessHas(a, p) then [Part(a, VerdictFor(a, r, p))] else [];
      NonEmptyCandidates(attrs[1..], r, p);
      NonEmptyAppend(head, Candidates(attrs[1..], r, p));
      if head != [] {
        assert head[1..] == [];
      }
    }
  }

  /** The status line is, in the fixed attribute order, exactly the attributes the
      process has a value for, each with its verdict. */
  lemma StatusLineIsReference(r: RuleRecord, p: ProcessInfo)
    ensures StatusLine(r, p) == Reference(AttrOrder, r, p)
  {
    NonEmptyCandidates(AttrOrder, r, p);
  }

  /** The reference lists an attribute exactly when the process has a value for it,
      with its verdict. */
  lemma {:induction false} ReferenceMembers(attrs: seq<Attr>, r: RuleRecord, p: ProcessInfo)
    ensures forall part :: part in Reference(attrs, r, p) <==>
              part.attr in attrs && ProcessHas(part.attr, p) && part.verdict == VerdictFor(part.attr, r, p)
    decreases |attrs|
  {
    if attrs != [] {
      ReferenceMembers(attrs[1..], r, p);
      assert forall a :: a in attrs <==> a == attrs[0] || a in attrs[1..];
    }
  }

  /** A lower bound on the ranks of `attrs` bounds the ranks the reference lists. */
  lemma {:induction false} ReferenceAbove(attrs: seq<Attr>, r: RuleRecord, p: ProcessInfo, b: int)
    requires forall m :: 0 <= m < |attrs| ==> b < Rank(attrs[m])
    ensures forall k :: 0 <= k < |Reference(attrs, r, p)| ==> b < Rank(Reference(attrs, r, p)[k].attr)
    decreases |attrs|
  {
    if attrs != [] {
      var tail := attrs[1..];
      assert forall m :: 0 <= m < |tail| ==> tail[m] == attrs[m + 1];
      ReferenceAbove(tail, r, p, b);
    }
  }

  /** The reference lists attributes in the order given. */
  lemma {:induction false} ReferenceOrdered(attrs: seq<Attr>, r: RuleRecord, p: ProcessInfo)
    requires forall i, j :: 0 <= i < j < |attrs| ==> Rank(attrs[i]) < Rank(attrs[j])
    ensures forall i, j :: 0 <= i < j < |Reference(attrs, r, p)| ==>
              Rank(Reference(attrs, r, p)[i].attr) < Rank(Reference(attrs, r, p)[j].attr)
    decreases |attrs|
  {
    if attrs != [] {
      var tail := attrs[1..];
      forall i, j | 0 <= i < j < |tail| ensures Rank(tail[i]) < Rank(tail[j]) {
        assert tail[i] == attrs[i + 1] && tail[j] == attrs[j + 1];
      }
      ReferenceOrdered(tail, r, p);
      var rest := Reference(tail, r, p);
      if ProcessHas(attrs[0], p) {
        var head := Part(attrs[0], VerdictFor(attrs[0], r, p));
        forall m | 0 <= m < |tail| ensures Rank(attrs[0]) < Rank(tail[m]) {
          assert tail[m] == attrs[m + 1];
        }
        ReferenceAbove(tail, r, p, Rank(attrs[0]));
        OrderedCons(head, rest);
      }
    }
  }

  /** A part ranked below every part of an ordered list can go in front of it. */
  lemma OrderedCons(head: Part, rest: seq<Part>)
    requires forall i, j :: 0 <= i < j < |rest| ==> Rank(rest[i].attr) < Rank(rest[j].attr)
    requires forall k :: 0 <= k < |rest| ==> Rank(head.attr) < Rank(rest[k].attr)
    ensures forall i, j :: 0 <= i < j < |[head] + rest| ==> Rank(([head] + rest)[i].attr) < Rank(([head] + rest)[j].attr)
  {
    var ref := [head] + rest;
    forall i, j | 0 <= i < j < |ref| ensures Rank(ref[i].attr) < Rank(ref[j].attr) {
      assert ref[j] == rest[j - 1];
      if i > 0 {
        assert ref[i] == rest[i - 1];
      }
    }
  }

  /** Every attribute is listed once, at its rank. */
  lemma AttrOrderComplete(a: Attr)
    ensures a in AttrOrder
    ensures forall i :: 0 <= i < |AttrOrder| ==> Rank(AttrOrder[i]) == i
  {
    match a
    case Nice => assert AttrOrder[0] == a;
    case LatNice => assert AttrOrder[1] == a;
    case Sched => assert AttrOrder[2] == a;
    case IO => assert AttrOrder[3] == a;
    case OOM => assert AttrOrder[4] == a;
    case Cgroup => assert AttrOrder[5] == a;
  }

  lemma AttrOrderRanked()
    ensures forall i, j :: 0 <= i < j < |AttrOrder| ==> Rank(AttrOrder[i]) < Rank(AttrOrder[j])
  {
    AttrOrderComplete(Nice);
  }

  lemma ReferenceInAttrOrder(r: RuleRecord, p: ProcessInfo)
    ensures forall part :: part in Reference(AttrOrder, r, p) <==>
              ProcessHas(part.attr, p) && part.verdict == VerdictFor(part.attr, r, p)
    ensures forall i, j :: 0 <= i < j < |Reference(AttrOrder, r, p)| ==>
              Rank(Reference(AttrOrder, r, p)[i].attr) < Rank(Reference(AttrOrder, r, p)[j].attr)
  {
    AttrOrderRanked();
    ReferenceMembers(AttrOrder, r, p);
    ReferenceOrdered(AttrOrder, r, p);
    forall part: Part ensures part.attr in AttrOrder {
      AttrOrderComplete(part.attr);
    }
  }

  /** A status part appears for an attribute exactly when the process has a value for
      it, whatever the rule says, carrying that attribute's verdict (never an empty
      one); parts follow the fixed attribute order. */
  lemma StatusLineShape(r: RuleRecord, p: ProcessInfo)
    ensures forall part :: part in StatusLine(r, p) <==>
              ProcessHas(part.attr, p) && part.verdict == VerdictFor(part.attr, r, p)
    ensures forall part :: part in StatusLine(r, p) ==> !part.verdict.Silent?
    ensures forall i, j :: 0 <= i < j < |StatusLine(r, p)| ==> Rank(StatusLine(r, p)[i].attr) < Rank(StatusLine(r, p)[j].attr)
  {
    StatusLineIsReference(r, p);
    ReferenceInAttrOrder(r, p);
  }

  lemma {:induction false} CandidatesIgnoreRtprio(attrs: seq<Attr>, r: RuleRecord, p: ProcessInfo, x: Option<int>, y: Option<int>)
    ensures Candidates(attrs, r.(rtprio := x), p.(rtprio := y)) == Candidates(attrs, r, p)
    decreases |attrs|
  {
    if attrs != [] {
      var a, r', p' := attrs[0], r.(rtprio := x), p.(rtprio := y);
      CandidatesIgnoreRtprio(attrs[1..], r, p, x, y);
      assert RuleHas(a, r') == RuleHas(a, r) && ProcessHas(a, p') == ProcessHas(a, p);
      assert VerdictFor(a, r', p') == VerdictFor(a, r, p);
    }
  }

  /** The real-time priority is never compared: it does not change the status line. */
  lemma RtprioNotCompared(r: RuleRecord, p: ProcessInfo, x: Option<int>, y: Option<int>)
    ensures StatusLine(r.(rtprio := x), p.(rtprio := y)) == StatusLine(r, p)
  {
    CandidatesIgnoreRtprio(AttrOrder, r, p, x, y);
  }

  // ---------------------------------------------------------------------------
  // One search result
  // ---------------------------------------------------------------------------

  /** The category of a rule: the name of the directory its file is in, or `root`
      when the path has no parent directory name. */
  function Category(sourceFile: Path): (c: string)
    ensures |sourceFile| >= 2 ==> Some(c) == FileName(sourceFile[..|sourceFile| - 1])
    ensures |sourceFile| < 2 ==> c == "root"
  {
    if |sourceFile| >= 2 then sourceFile[|sourceFile| - 2] else "root"
  }

  /** The name a rule is looked up and shown by: its own, or the translated "unknown"
      label when it has none. */
  function DisplayName(rule: EnrichedRule, unknownLabel: string): (name: string)
    ensures rule.data.name.Some? ==> name == rule.data.name.value
    ensures rule.data.name.None? ==> name == unknownLabel
  {
    rule.data.name.GetOr(unknownLabel)
  }

  /** What is shown for one rule: its category and name, the pid of the first matching
      process when one runs, whether the shadowed marker is shown, the status line
      against that first process, and the lines of its comment. */
  datatype RuleReport = RuleReport(
    category: string,
    name: string,
    activePid: Option<int>,
    shadowedMarker: bool,
    status: seq<Part>,
    infoLines: seq<string>)

  /** The status shown for a rule: compared against the first matching process only,
      and nothing when no process matches. */
  function StatusFor(r: RuleRecord, infos: seq<ProcessInfo>): (status: seq<Part>)
    ensures infos == [] ==> status == []
    ensures forall part :: part in status ==>
              infos != [] && ProcessHas(part.attr, infos[0]) && part.verdict == VerdictFor(part.attr, r, infos[0])
  {
    if infos == [] then [] else StatusLine(r, infos[0])
  }

  /** The lines printed under a rule: those of its context comment, if any. */
  function InfoLines(comment: Option<string>): (lines: seq<string>)
    ensures comment.None? ==> lines == []
    ensures forall line :: line in lines ==> '\n' !in line
  {
    match comment
    case None => []
    case Some(c) => Lines(c)
  }

  /** The report for a rule, given the processes found for its display name. */
  function ReportFor(rule: EnrichedRule, unknownLabel: string, infos: seq<ProcessInfo>): (report: RuleReport)
    ensures report.activePid.Some? <==> infos != []
    ensures infos != [] ==> report.activePid == Some(infos[0].pid)
    ensures report.shadowedMarker <==> rule.shadowed
    ensures report.name == DisplayName(rule, unknownLabel) && report.category == Category(rule.sourceFile)
    ensures forall part :: part in report.status ==> infos != [] && ProcessHas(part.attr, infos[0])
  {
    RuleReport(
      Category(rule.sourceFile),
      DisplayName(rule, unknownLabel),
      if infos == [] then None else Some(infos[0].pid),
      rule.shadowed,
      StatusFor(rule.data, infos),
      InfoLines(rule.contextComment))
  }

  /** The report is read only from the first matching process: processes after it do
      not change it, and without a matching process there is no status. */
  lemma ReportUsesFirstProcess(rule: EnrichedRule, unknownLabel: string, first: ProcessInfo, more: seq<ProcessInfo>)
    ensures ReportFor(rule, unknownLabel, [first] + more) == ReportFor(rule, unknownLabel, [first])
    ensures ReportFor(rule, unknownLabel, []).status == [] && ReportFor(rule, unknownLabel, []).activePid.None?
    ensures ReportFor(rule, unknownLabel, [first]).shadowedMarker <==> rule.shadowed
  {
  }

  /** The lines shown under a parsed rule are the comment lines read before it: each
      starts with `#`, and together they give back its context comment; a rule without
      a comment shows none. */
  lemma InfoLinesAreCommentLines(rule: EnrichedRule, path: Path, content: string, decode: RuleParsing.Decoder,
                                 unknownLabel: string, infos: seq<ProcessInfo>)
    requires rule in RuleParsing.ParseContent(path, content, decode)
    ensures rule.contextComment.None? ==> ReportFor(rule, unknownLabel, infos).infoLines == []
    ensures rule.contextComment.Some? ==>
              var shown := ReportFor(rule, unknownLabel, infos).infoLines;
              shown != [] && (forall t :: t in shown ==> RuleParsing.CommentLine(t))
              && Join(shown, "\n") == rule.contextComment.value
  {
    RuleParsing.ParsedCommentLines(path, content, decode);
  }

  /** The report for one rule: its category and display name, the processes of the
      snapshot that carry that name, and what is shown from the first of them. */
  method ReportOf(rule: EnrichedRule, service: ProcessService, unknownLabel: string) returns (report: RuleReport)
    ensures report == ReportFor(rule, unknownLabel, InfosFor(service.processes, DisplayName(rule, unknownLabel)))
  {
    var category := Category(rule.sourceFile);
    var name := DisplayName(rule, unknownLabel);
    var processInfos := service.GetProcessInfos(name);
    var isActive := processInfos != [];
    var pid := if isActive then Some(processInfos[0].pid) else None;
    var statusLine := StatusFor(rule.data, processInfos);
    report := RuleReport(category, name, pid, rule.shadowed, statusLine, InfoLines(rule.contextComment));
  }

  /** The search results: one report per rule, in order, each against the processes
      of the snapshot that carry the rule's name. */
  method SearchResults(rules: seq<EnrichedRule>, service: ProcessService, unknownLabel: string)
    returns (reports: seq<RuleReport>)
    ensures |reports| == |rules|
    ensures forall i :: 0 <= i < |rules| ==>
              reports[i] == ReportFor(rules[i], unknownLabel, InfosFor(service.processes, DisplayName(rules[i], unknownLabel)))
  {
    reports := [];
    for i := 0 to |rules|
      invariant |reports| == i
      invariant forall k :: 0 <= k < i ==>
                  reports[k] == ReportFor(rules[k], unknownLabel, InfosFor(service.processes, DisplayName(rules[k], unknownLabel)))
    {
      var report := ReportOf(rules[i], service, unknownLabel);
      reports := reports + [report];
    }
  }
}
