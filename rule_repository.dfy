/** The rule loader: reads every `.rules` file under each base path, in ascending path
    order within a base path and base paths in the order given, and concatenates the
    rules read from them. Missing base paths and unreadable files contribute nothing. */
module RuleRepository {
  import opened Wrappers
  import opened Text
  import opened Paths
  import opened Models
  import opened RuleParsing

  datatype LoadError = Unreadable(path: Path)

  // ---------------------------------------------------------------------------
  // Specification
  // ---------------------------------------------------------------------------

  /** The rules one walk entry contributes: none unless it is a readable `.rules` file. */
  function EntryRules(e: FileEntry, decode: Decoder): seq<EnrichedRule> {
    if !IsRulesFile(e.path) then []
    else
      match e.content
      case None => []
      case Some(c) => ParseContent(e.path, c, decode)
  }

  /** The concatenation of `f` over `xs`, in order. */
  function FlatMap<T, U>(xs: seq<T>, f: T -> seq<U>): seq<U>
    decreases |xs|
  {
    if xs == [] then [] else FlatMap(xs[..|xs| - 1], f) + f(xs[|xs| - 1])
  }

  function EntryRulesWith(decode: Decoder): FileEntry -> seq<EnrichedRule> {
    e => EntryRules(e, decode)
  }

  /** The rules of the entries `es`, in the order the entries come. */
  function EntriesRules(es: seq<FileEntry>, decode: Decoder): seq<EnrichedRule> {
    FlatMap(es, EntryRulesWith(decode))
  }

  /** The rules under one base path, given its walk (`None` when it does not exist). */
  function DirRules(walk: Option<seq<FileEntry>>, decode: Decoder): (rs: seq<EnrichedRule>)
    ensures walk.None? ==> rs == []
    ensures forall r :: r in rs ==> IsRulesFile(r.sourceFile) && !r.shadowed
  {
    match walk
    case None => []
    case Some(es) =>
      EntriesRulesProvenance(SortByPath(es), decode);
      EntriesRules(SortByPath(es), decode)
  }

  function BaseRulesWith(tree: FileTree, decode: Decoder): Path -> seq<EnrichedRule> {
    base => DirRules(Walk(tree, base), decode)
  }

  /** The rules under all base paths, in base path order. */
  function AllRules(basePaths: seq<Path>, tree: FileTree, decode: Decoder): (rs: seq<EnrichedRule>)
    ensures forall r :: r in rs ==> IsRulesFile(r.sourceFile) && !r.shadowed
  {
    FlatMapKeeps(basePaths, BaseRulesWith(tree, decode), (r: EnrichedRule) => IsRulesFile(r.sourceFile) && !r.shadowed);
    FlatMap(basePaths, BaseRulesWith(tree, decode))
  }

  // ---------------------------------------------------------------------------
  // The loader
  // ---------------------------------------------------------------------------

  /** Reads one rule file line by line, keeping the comment buffer, the block flag and
      the rules read so far. `content` is `None` when the file cannot be read. */
  method ParseFile(path: Path, content: Option<string>, decode: Decoder)
    returns (r: Result<seq<EnrichedRule>, LoadError>)
    ensures content.None? ==> r == Failure(Unreadable(path))
    ensures content.Some? ==> r == Success(ParseContent(path, content.value, decode))
    ensures content.Some? ==> r.value == Expected(Kinds(Lines(content.value), decode), path)
  {
    if content.None? {
      return Failure(Unreadable(path));
    }
    var lines := Lines(content.value);
    ghost var ks := Kinds(lines, decode);
    var rules: seq<EnrichedRule> := [];
    var commentBuffer: seq<string> := [];
    var rulesProcessedInBlock := false;
    for i := 0 to |lines|
      invariant ParserState(commentBuffer, rulesProcessedInBlock, rules) == Run(ks[..i], path)
    {
      ghost var before := ParserState(commentBuffer, rulesProcessedInBlock, rules);
      assert ks[..i + 1][..i] == ks[..i];
      assert Run(ks[..i + 1], path) == Step(before, ks[i], path);
      var trimmed := Trim(lines[i]);
      assert ks[i] == Classify(lines[i], decode);
      if trimmed == [] {
        assert ks[i] == Blank;
        commentBuffer := [];
        rulesProcessedInBlock := false;
        continue;
      }
      if trimmed[0] == '#' {
        assert ks[i] == Comment(trimmed);
        if rulesProcessedInBlock {
          commentBuffer := [];
          rulesProcessedInBlock := false;
        }
        commentBuffer := commentBuffer + [trimmed];
      } else if trimmed[0] == '{' {
        match decode(trimmed)
        case Some(data) =>
          assert ks[i] == RuleLine(data);
          var comment := if commentBuffer == [] then None else Some(Join(commentBuffer, "\n"));
          rules := rules + [EnrichedRule(data, comment, path, false)];
          rulesProcessedInBlock := true;
        case None =>
          assert ks[i] == Other;
          continue;
      } else {
        assert ks[i] == Other;
      }
    }
    assert ks[..|lines|] == ks;
    ParseContentIsExpected(path, content.value, decode);
    return Success(rules);
  }

  /** Loads one base path: nothing when it does not exist, otherwise every `.rules`
      entry of its walk in ascending path order, skipping files that cannot be read. */
  method LoadRulesFromDir(walk: Option<seq<FileEntry>>, decode: Decoder) returns (rules: seq<EnrichedRule>)
    ensures rules == DirRules(walk, decode)
  {
    rules := [];
    if walk.None? {
      return;
    }
    var entries := SortByPath(walk.value);
    for i := 0 to |entries|
      invariant rules == EntriesRules(entries[..i], decode)
    {
      assert entries[..i + 1][..i] == entries[..i];
      if IsRulesFile(entries[i].path) {
        var fileRules := ParseFile(entries[i].path, entries[i].content, decode);
        match fileRules
        case Success(rs) =>
          rules := rules + rs;
        case Failure(_) =>
      }
    }
    assert entries[..|entries|] == entries;
  }

  /** Loads every base path in turn; never fails. */
  method LoadAll(basePaths: seq<Path>, tree: FileTree, decode: Decoder)
    returns (r: Result<seq<EnrichedRule>, LoadError>)
    ensures r == Success(AllRules(basePaths, tree, decode))
  {
    var allRules: seq<EnrichedRule> := [];
    for i := 0 to |basePaths|
      invariant allRules == AllRules(basePaths[..i], tree, decode)
    {
      assert basePaths[..i + 1][..i] == basePaths[..i];
      var rules := LoadRulesFromDir(Walk(tree, basePaths[i]), decode);
      allRules := allRules + rules;
    }
    assert basePaths[..|basePaths|] == basePaths;
    return Success(allRules);
  }

  // ---------------------------------------------------------------------------
  // Properties
  // ---------------------------------------------------------------------------

  lemma {:induction false} FlatMapAppend<T, U>(a: seq<T>, b: seq<T>, f: T -> seq<U>)
    ensures FlatMap(a + b, f) == FlatMap(a, f) + FlatMap(b, f)
    decreases |b|
  {
    if b == [] {
      assert a + b == a;
    } else {
      var b' := b[..|b| - 1];
      assert (a + b)[..|a + b| - 1] == a + b';
      FlatMapAppend(a, b', f);
    }
  }

  /** A property every image has holds for the whole concatenation. */
  lemma {:induction false} FlatMapKeeps<T, U>(xs: seq<T>, f: T -> seq<U>, keep: U -> bool)
    requires forall x, y :: x in xs && y in f(x) ==> keep(y)
    ensures forall y :: y in FlatMap(xs, f) ==> keep(y)
    decreases |xs|
  {
    if xs != [] {
      var front := xs[..|xs| - 1];
      assert forall x :: x in front ==> x in xs;
      FlatMapKeeps(front, f, keep);
    }
  }

  /** An element that maps to nothing leaves the concatenation of the others. */
  lemma FlatMapSkip<T, U>(a: seq<T>, x: T, b: seq<T>, f: T -> seq<U>)
    requires f(x) == []
    ensures FlatMap(a + [x] + b, f) == FlatMap(a, f) + FlatMap(b, f)
  {
    FlatMapAppend(a + [x], b, f);
    FlatMapAppend(a, [x], f);
    assert FlatMap([x], f) == [] by {
      assert [x][..0] == [];
    }
  }

  lemma EntriesRulesSnoc(es: seq<FileEntry>, decode: Decoder)
    requires es != []
    ensures EntriesRules(es, decode) == EntriesRules(es[..|es| - 1], decode) + EntryRules(es[|es| - 1], decode)
  {
  }

  /** A file that cannot be read, or that is not a `.rules` file, contributes nothing,
      and the entries after it are loaded as usual. */
  lemma SkippedEntry(a: seq<FileEntry>, e: FileEntry, b: seq<FileEntry>, decode: Decoder)
    requires e.content.None? || !IsRulesFile(e.path)
    ensures EntriesRules(a + [e] + b, decode) == EntriesRules(a, decode) + EntriesRules(b, decode)
  {
    assert EntryRulesWith(decode)(e) == [];
    FlatMapSkip(a, e, b, EntryRulesWith(decode));
  }

  /** A base path that does not exist, or whose walk is empty, contributes nothing, and
      the other base paths are loaded as usual. */
  lemma MissingOrEmptyBasePath(a: seq<Path>, base: Path, b: seq<Path>, tree: FileTree, decode: Decoder)
    requires base !in tree || tree[base] == []
    ensures AllRules(a + [base] + b, tree, decode) == AllRules(a, tree, decode) + AllRules(b, tree, decode)
  {
    assert BaseRulesWith(tree, decode)(base) == [];
    FlatMapSkip(a, base, b, BaseRulesWith(tree, decode));
  }

  /** Every rule a file contributes names that file, and no rule is shadowed. */
  lemma EntryRulesProvenance(e: FileEntry, decode: Decoder)
    ensures forall r :: r in EntryRules(e, decode) ==>
              r.sourceFile == e.path && IsRulesFile(e.path) && e.content.Some? && !r.shadowed
  {
    if IsRulesFile(e.path) && e.content.Some? {
      RunEmitsDecodedLines(Kinds(Lines(e.content.value), decode), e.path);
    }
  }

  /** Every loaded rule comes from a readable `.rules` entry of the walk, and none is
      shadowed. */
  lemma {:induction false} EntriesRulesProvenance(es: seq<FileEntry>, decode: Decoder)
    ensures forall r :: r in EntriesRules(es, decode) ==>
              !r.shadowed && exists e :: e in es && r.sourceFile == e.path && IsRulesFile(e.path) && e.content.Some?
    decreases |es|
  {
    if es != [] {
      var front := es[..|es| - 1];
      var last := es[|es| - 1];
      EntriesRulesSnoc(es, decode);
      EntriesRulesProvenance(front, decode);
      EntryRulesProvenance(last, decode);
      assert forall e :: e in front ==> e in es;
    }
  }

  /** Within a base path the rules come out file by file in ascending path order. */
  lemma {:induction false} EntriesRulesInPathOrder(es: seq<FileEntry>, decode: Decoder)
    requires SortedByPath(es)
    ensures forall i, j :: 0 <= i < j < |EntriesRules(es, decode)| ==>
              PathLe(EntriesRules(es, decode)[i].sourceFile, EntriesRules(es, decode)[j].sourceFile)
    decreases |es|
  {
    if es != [] {
      var front := es[..|es| - 1];
      var last := es[|es| - 1];
      EntriesRulesSnoc(es, decode);
      EntriesRulesInPathOrder(front, decode);
      EntriesRulesProvenance(front, decode);
      EntryRulesProvenance(last, decode);
      PathLeReflexive(last.path);
      var rs := EntriesRules(es, decode);
      var n := |EntriesRules(front, decode)|;
      forall i, j | 0 <= i < j < |rs| ensures PathLe(rs[i].sourceFile, rs[j].sourceFile) {
        if j >= n {
          assert rs[j] in EntryRules(last, decode);
          if i >= n {
            assert rs[i] in EntryRules(last, decode);
          } else {
            assert rs[i] in EntriesRules(front, decode);
            var e :| e in front && rs[i].sourceFile == e.path && IsRulesFile(e.path) && e.content.Some?;
            var k :| 0 <= k < |front| && front[k] == e;
            assert es[k] == e;
          }
        }
      }
    }
  }

  /** The rules of one base path are in ascending order of their files' paths, each
      from a readable `.rules` entry of its walk, none shadowed. */
  lemma DirRulesSortedAndFromRulesFiles(es: seq<FileEntry>, decode: Decoder)
    ensures var rs := DirRules(Some(es), decode);
            (forall i, j :: 0 <= i < j < |rs| ==> PathLe(rs[i].sourceFile, rs[j].sourceFile))
            && (forall r :: r in rs ==>
                  IsRulesFile(r.sourceFile) && !r.shadowed && exists e :: e in es && e.path == r.sourceFile && e.content.Some?)
  {
    var sorted := SortByPath(es);
    EntriesRulesInPathOrder(sorted, decode);
    EntriesRulesProvenance(sorted, decode);
    var rs := EntriesRules(sorted, decode);
    forall r | r in rs
      ensures IsRulesFile(r.sourceFile) && !r.shadowed && exists e :: e in es && e.path == r.sourceFile && e.content.Some?
    {
      var e :| e in sorted && r.sourceFile == e.path && IsRulesFile(e.path) && e.content.Some?;
      assert e in multiset(es);
    }
  }

  /** The rules of a base path do not depend on the order its walk yields the entries
      in. */
  lemma DirRulesIgnoreWalkOrder(w1: seq<FileEntry>, w2: seq<FileEntry>, decode: Decoder)
    requires multiset(w1) == multiset(w2)
    requires PathDeterminesEntry(w1)
    ensures DirRules(Some(w1), decode) == DirRules(Some(w2), decode)
  {
    SortIgnoresWalkOrder(w1, w2);
  }
}
