/** The older rule loader: the same line reader, but its rules have no `shadowed`
    flag, and the `.rules` files of a base path are read in the order the walk yields
    them, without sorting. */
module FsRepo {
  import opened Wrappers
  import opened Text
  import opened Paths
  import opened Models
  import opened RuleParsing
  import RuleRepository

  /** A rule as the older loader produces it. */
  datatype LegacyRule = LegacyRule(data: RuleRecord, contextComment: Option<string>, sourceFile: Path)

  function Legacy(r: EnrichedRule): LegacyRule {
    LegacyRule(r.data, r.contextComment, r.sourceFile)
  }

  /** The rules with the `shadowed` flag dropped. */
  function LegacyAll(rs: seq<EnrichedRule>): seq<LegacyRule> {
    seq(|rs|, i requires 0 <= i < |rs| => Legacy(rs[i]))
  }

  // ---------------------------------------------------------------------------
  // Specification
  // ---------------------------------------------------------------------------

  /** The rules under one base path, taking its `.rules` files in walk order. */
  function DirRules(walk: Option<seq<FileEntry>>, decode: Decoder): (rs: seq<LegacyRule>)
    ensures walk.None? ==> rs == []
    ensures forall r :: r in rs ==> IsRulesFile(r.sourceFile)
  {
    match walk
    case None => []
    case Some(es) =>
      RuleRepository.EntriesRulesProvenance(es, decode);
      LegacyFromRulesFiles(RuleRepository.EntriesRules(es, decode));
      LegacyAll(RuleRepository.EntriesRules(es, decode))
  }

  function BaseRulesWith(tree: FileTree, decode: Decoder): Path -> seq<LegacyRule> {
    base => DirRules(Walk(tree, base), decode)
  }

  /** The rules under all base paths, in base path order. */
  function AllRules(basePaths: seq<Path>, tree: FileTree, decode: Decoder): (rs: seq<LegacyRule>)
    ensures forall r :: r in rs ==> IsRulesFile(r.sourceFile)
  {
    RuleRepository.FlatMapKeeps(basePaths, BaseRulesWith(tree, decode), (r: LegacyRule) => IsRulesFile(r.sourceFile));
    RuleRepository.FlatMap(basePaths, BaseRulesWith(tree, decode))
  }

  // ---------------------------------------------------------------------------
  // The loader
  // ---------------------------------------------------------------------------

  /** Reads one rule file line by line, as the newer loader does. */
  method ParseFile(path: Path, content: Option<string>, decode: Decoder)
    returns (r: Result<seq<LegacyRule>, RuleRepository.LoadError>)
    ensures content.None? ==> r == Failure(RuleRepository.Unreadable(path))
    ensures content.Some? ==> r == Success(LegacyAll(ParseContent(path, content.value, decode)))
  {
    if content.None? {
      return Failure(RuleRepository.Unreadable(path));
    }
    var lines := Lines(content.value);
    ghost var ks := Kinds(lines, decode);
    var rules: seq<LegacyRule> := [];
    var commentBuffer: seq<string> := [];
    var rulesProcessedInBlock := false;
    ghost var full: seq<EnrichedRule> := [];
    for i := 0 to |lines|
      invariant ParserState(commentBuffer, rulesProcessedInBlock, full) == Run(ks[..i], path)
      invariant rules == LegacyAll(full)
    {
      ghost var before := ParserState(commentBuffer, rulesProcessedInBlock, full);
      assert ks[..i + 1][..i] == ks[..i];
      assert Run(ks[..i + 1], path) == Step(before, ks[i], path);
      var trimmed := Trim(lines[i]);
      assert ks[i] == Classify(lines[i], decode);
      if trimmed == [] {
        assert ks[i] == Blank;
        commentBuffer := [];
        rulesProcessedInBlock := false;
        continue;
      }
      if trimmed[0] == '#' {
        assert ks[i] == Comment(trimmed);
        if rulesProcessedInBlock {
          commentBuffer := [];
          rulesProcessedInBlock := false;
        }
        commentBuffer := commentBuffer + [trimmed];
      } else if trimmed[0] == '{' {
        match decode(trimmed)
        case Some(data) =>
          assert ks[i] == RuleLine(data);
          var comment := if commentBuffer == [] then None else Some(Join(commentBuffer, "\n"));
          LegacyAllAppend(full, [EnrichedRule(data, comment, path, false)]);
          full := full + [EnrichedRule(data, comment, path, false)];
          rules := rules + [LegacyRule(data, comment, path)];
          rulesProcessedInBlock := true;
        case None =>
          assert ks[i] == Other;
          continue;
      } else {
        assert ks[i] == Other;
      }
    }
    assert ks[..|lines|] == ks;
    return Success(rules);
  }

  /** Loads one base path: nothing when it does not exist, otherwise every `.rules`
      entry in walk order, skipping files that cannot be read. */
  method LoadRulesFromDir(walk: Option<seq<FileEntry>>, decode: Decoder) returns (rules: seq<LegacyRule>)
    ensures rules == DirRules(walk, decode)
  {
    rules := [];
    if walk.None? {
      return;
    }
    var entries := walk.value;
    for i := 0 to |entries|
      invariant rules == LegacyAll(RuleRepository.EntriesRules(entries[..i], decode))
    {
      ghost var before := RuleRepository.EntriesRules(entries[..i], decode);
      ghost var added := RuleRepository.EntryRules(entries[i], decode);
      assert entries[..i + 1][..i] == entries[..i];
      RuleRepository.EntriesRulesSnoc(entries[..i + 1], decode);
      LegacyAllAppend(before, added);
      if IsRulesFile(entries[i].path) {
        var fileRules := ParseFile(entries[i].path, entries[i].content, decode);
        match fileRules
        case Success(rs) =>
          assert rs == LegacyAll(added);
          rules := rules + rs;
        case Failure(_) =>
          assert added == [];
      } else {
        assert added == [];
      }
    }
    assert entries[..|entries|] == entries;
  }

  /** Loads every base path in turn; never fails. */
  method LoadAll(basePaths: seq<Path>, tree: FileTree, decode: Decoder)
    returns (r: Result<seq<LegacyRule>, RuleRepository.LoadError>)
    ensures r == Success(AllRules(basePaths, tree, decode))
  {
    var allRules: seq<LegacyRule> := [];
    for i := 0 to |basePaths|
      invariant allRules == AllRules(basePaths[..i], tree, decode)
    {
      assert basePaths[..i + 1][..i] == basePaths[..i];
      var rules := LoadRulesFromDir(Walk(tree, basePaths[i]), decode);
      allRules := allRules + rules;
    }
    assert basePaths[..|basePaths|] == basePaths;
    return Success(allRules);
  }

  // ---------------------------------------------------------------------------
  // Properties
  // ---------------------------------------------------------------------------

  lemma LegacyAllAppend(a: seq<EnrichedRule>, b: seq<EnrichedRule>)
    ensures LegacyAll(a + b) == LegacyAll(a) + LegacyAll(b)
  {
  }

  /** Dropping the flag keeps the file each rule comes from. */
  lemma LegacyFromRulesFiles(rs: seq<EnrichedRule>)
    requires forall r :: r in rs ==> IsRulesFile(r.sourceFile)
    ensures forall l :: l in LegacyAll(rs) ==> IsRulesFile(l.sourceFile)
  {
    forall l | l in LegacyAll(rs) ensures IsRulesFile(l.sourceFile) {
      var i :| 0 <= i < |rs| && LegacyAll(rs)[i] == l;
      assert rs[i] in rs;
    }
  }

  /** On a walk that already yields its entries in path order, the older loader reads
      the same rules as the newer one, up to the `shadowed` flag. */
  lemma SortedWalkMatchesNewerLoader(es: seq<FileEntry>, decode: Decoder)
    requires SortedByPath(es) && PathDeterminesEntry(es)
    ensures DirRules(Some(es), decode) == LegacyAll(RuleRepository.DirRules(Some(es), decode))
  {
    SortedUnique(es, SortByPath(es));
  }

  /** An unreadable or non-`.rules` entry contributes nothing, and the entries after
      it are loaded as usual. */
  lemma SkippedEntry(a: seq<FileEntry>, e: FileEntry, b: seq<FileEntry>, decode: Decoder)
    requires e.content.None? || !IsRulesFile(e.path)
    ensures DirRules(Some(a + [e] + b), decode) == DirRules(Some(a), decode) + DirRules(Some(b), decode)
  {
    RuleRepository.SkippedEntry(a, e, b, decode);
    LegacyAllAppend(RuleRepository.EntriesRules(a, decode), RuleRepository.EntriesRules(b, decode));
  }

  /** A missing or empty base path contributes nothing, and the others are loaded as
      usual. */
  lemma MissingOrEmptyBasePath(a: seq<Path>, base: Path, b: seq<Path>, tree: FileTree, decode: Decoder)
    requires base !in tree || tree[base] == []
    ensures AllRules(a + [base] + b, tree, decode) == AllRules(a, tree, decode) + AllRules(b, tree, decode)
  {
    assert BaseRulesWith(tree, decode)(base) == [];
    RuleRepository.FlatMapSkip(a, base, b, BaseRulesWith(tree, decode));
  }

  /** The position in the walk `es` of the entry that rule `i` of its rules comes
      from. */
  ghost function Origin(es: seq<FileEntry>, decode: Decoder, i: nat): (k: nat)
    requires i < |RuleRepository.EntriesRules(es, decode)|
    ensures k < |es|
    ensures RuleRepository.EntriesRules(es, decode)[i] in RuleRepository.EntryRules(es[k], decode)
    decreases |es|
  {
    assert es != [];
    var front := es[..|es| - 1];
    RuleRepository.EntriesRulesSnoc(es, decode);
    if i < |RuleRepository.EntriesRules(front, decode)| then
      var k := Origin(front, decode, i);
      assert es[k] == front[k];
      k
    else
      |es| - 1
  }

  /** Within a base path the rules come out in walk order of their files: every rule
      names the entry it comes from, and a later rule never comes from an earlier
      entry. */
  lemma {:induction false} WalkOrderKept(es: seq<FileEntry>, decode: Decoder)
    ensures |DirRules(Some(es), decode)| == |RuleRepository.EntriesRules(es, decode)|
    ensures forall i :: 0 <= i < |DirRules(Some(es), decode)| ==>
              DirRules(Some(es), decode)[i].sourceFile == es[Origin(es, decode, i)].path
    ensures forall i, j :: 0 <= i < j < |DirRules(Some(es), decode)| ==> Origin(es, decode, i) <= Origin(es, decode, j)
    decreases |es|
  {
    var rs := RuleRepository.EntriesRules(es, decode);
    forall i | 0 <= i < |rs| ensures rs[i].sourceFile == es[Origin(es, decode, i)].path {
      RuleRepository.EntryRulesProvenance(es[Origin(es, decode, i)], decode);
    }
    if es != [] {
      var front := es[..|es| - 1];
      WalkOrderKept(front, decode);
      RuleRepository.EntriesRulesSnoc(es, decode);
      var n := |RuleRepository.EntriesRules(front, decode)|;
      forall i, j | 0 <= i < j < |rs| ensures Origin(es, decode, i) <= Origin(es, decode, j) {
        if j < n {
          assert Origin(es, decode, i) == Origin(front, decode, i);
          assert Origin(es, decode, j) == Origin(front, decode, j);
        } else if i < n {
          assert Origin(es, decode, i) == Origin(front, decode, i);
        }
      }
    }
  }
}
