# ananicy-rule-o-matic: rule loading, rule search and process inspection in Dafny

This project models the core of *ananicy-rule-o-matic*, an inspector for Ananicy rule files. Ananicy rules are JSON
objects, one per line, in `.rules` files. Each rule names a process and the scheduling attributes it should get:
nice, latency nice, scheduling policy, IO class, OOM score and cgroup.

The model covers these parts:

- **Line reader (`RuleParsing`).** It turns the content of one `.rules` file into rules.
  - Every rule carries the comment block that precedes it.
  - A blank line, or a comment after a rule, starts a new block.
  - A `{` line that does not decode is skipped.

  `Run` is the reader's state machine. `Expected` is an independent description of which comment lines each rule
  gets, and `RunMatchesExpected` proves the two agree.
- **Rule loaders (`RuleRepository`, `FsRepo`).** They walk each base path, keep the `.rules` files and parse every
  readable one. Missing base paths and unreadable files contribute nothing.
  - The newer loader sorts each walk by path and marks every rule as not shadowed.
  - The older loader keeps the walk order and has no `shadowed` flag.

  Both loaders are `method`s with loops, proved against specification functions (`DirRules`, `AllRules`).
- **Rule search (`RuleService`).** A rule is kept when the lower-cased query occurs in its lower-cased name or in its
  lower-cased context comment. The result keeps the loaded order.
- **Process service (`ProcessService`).** A class that holds the last snapshot of running processes and the set of
  their lower-cased names. It also covers how each kernel answer is decoded:
  - nice;
  - the OOM score file;
  - the cgroup file;
  - the scheduling policy;
  - the IO priority class;
  - the shortening of `user.slice` cgroup paths.
- **Search report (`Cli`).** For each found rule, the report has:
  - a category, which is the parent directory of the rule's file;
  - a display name;
  - the pid of the first matching process;
  - the shadowed marker;
  - the status line, which compares the rule with the first process attribute by attribute;
  - the comment lines.

The filesystem, the JSON decoder and the kernel are inputs of the model:

- A directory walk is a `FileTree`: a map from base path to the listing of its entries, each with `None` content when
  unreadable.
- JSON decoding of one line is a function parameter `Decoder`.
- What the kernel answers for one process is a `KernelReadings` value.

`src/domain/models.rs` declares fewer rule fields than the core code reads, and no `shadowed` flag. The record types
here follow the code that uses them: `src/presentation/cli.rs:76-162` and `src/infrastructure/rule_repository.rs:114`.
The program's tests expect shadowing (`tests/application/rule_service_tests.rs:45-72`) and a sort by category and
name (`tests/application/rule_service_tests.rs:108-145`). The code does neither: the loader sets `shadowed` to false
(`src/infrastructure/rule_repository.rs:114`), and the search keeps load order (`src/application/rule_service.rs:24-35`).
The tests also expect the search to match a rule's `type` and `cgroup` fields
(`tests/application/rule_service_tests.rs:95-101`). The code matches only the name and the context comment
(`src/application/rule_service.rs:26-34`). The model follows the code.

## Model

| member | source | states |
|---|---|---|
| RuleParsing.Classify | src/infrastructure/rule_repository.rs:77-99 | a trimmed line is blank exactly when it is empty; a comment exactly when it starts with `#`, carrying the trimmed line; a rule line exactly when it starts with `{` and decodes, carrying the decoded record; anything else is skipped |
| RuleParsing.Step | src/infrastructure/rule_repository.rs:79-125 | one line never changes the rules already read, and adds exactly one rule for a rule line and none otherwise |
| RuleParsing.Run | src/infrastructure/rule_repository.rs:75-126 | reading a file gives at most one rule per line |
| RuleParsing.ParseContent | src/infrastructure/rule_repository.rs:67-129 | at most one rule per line of the content, each naming the file read and none shadowed |
| RuleParsing.RunMatchesExpected | src/infrastructure/rule_repository.rs:75-126 | after any sequence of lines, the reader's buffer is the comment lines after the last group boundary, its block flag says whether the lines end in a rule of the current block, and its rules are exactly the declarative `Expected` rules |
| RuleParsing.ParseContentIsExpected | src/infrastructure/rule_repository.rs:67-129 | parsing a file's content gives the rules the declarative description assigns to its lines |
| RuleParsing.RunEmitsDecodedLines | src/infrastructure/rule_repository.rs:97-125 | one rule per `{` line that decodes, in line order, carrying the decoded record and the file path, with `shadowed` false |
| RuleParsing.RunFromAppend | src/infrastructure/rule_repository.rs:75-126 | reading `a + b` is reading `a` and then reading `b` from the state reached |
| RuleParsing.RunFromKeepsRules | src/infrastructure/rule_repository.rs:117-123 | rules already read are never changed by later lines; later lines only append |
| RuleParsing.BlankLineSeparates | src/infrastructure/rule_repository.rs:79-85 | a blank line cuts the file in two independent parts: the rules are those of the part before plus those of the part after read from scratch |
| RuleParsing.CommentAfterRuleSeparates | src/infrastructure/rule_repository.rs:87-96 | a comment line after a rule starts a fresh block: what follows is read as if the file began with that comment |
| RuleParsing.ConsecutiveRulesShareComment | src/infrastructure/rule_repository.rs:105-117 | consecutive rule lines all get the same context comment, and the buffer is kept for them |
| RuleParsing.SkippedLineChangesNothing | src/infrastructure/rule_repository.rs:97-125 | a line that is not blank, not a comment and not a decodable rule leaves the reader's state unchanged |
| RuleParsing.ParsedCommentLines | src/infrastructure/rule_repository.rs:105-112 | every context comment of a parsed rule is a non-empty list of trimmed `#` lines joined by newlines, and splitting it into lines gives those lines back |
| RuleRepository.DirRules | src/infrastructure/rule_repository.rs:33-65 | a missing base path gives no rules; every rule of a base path comes from a `.rules` file and is not shadowed |
| RuleRepository.AllRules | src/infrastructure/rule_repository.rs:20-31 | every rule loaded from any base path comes from a `.rules` file, and none is marked shadowed, since the reader sets the flag to false (line 114) |
| RuleRepository.ParseFile | src/infrastructure/rule_repository.rs:67-129 | an unreadable file is an error naming its path; otherwise the result is the parsed content, equal to the declarative description |
| RuleRepository.LoadRulesFromDir | src/infrastructure/rule_repository.rs:33-65 | the rules of a base path are those of its `.rules` files in ascending path order; a missing path gives none; an unreadable file is skipped |
| RuleRepository.LoadAll | src/infrastructure/rule_repository.rs:20-31 | the rules of all base paths, concatenated in base path order; loading never fails |
| RuleRepository.SkippedEntry | src/infrastructure/rule_repository.rs:47-59 | an entry that is unreadable or not a `.rules` file can be removed from a walk without changing the result |
| RuleRepository.MissingOrEmptyBasePath | src/infrastructure/rule_repository.rs:20-40 | a base path that does not exist, or whose walk is empty, can be removed from the list without changing the result |
| RuleRepository.EntriesRulesProvenance | src/infrastructure/rule_repository.rs:47-53 | every loaded rule comes from a readable `.rules` entry of the walk, named in `sourceFile` |
| RuleRepository.EntriesRulesInPathOrder | src/infrastructure/rule_repository.rs:42-53 | on a walk sorted by path, the rules come in non-decreasing `sourceFile` order |
| RuleRepository.DirRulesSortedAndFromRulesFiles | src/infrastructure/rule_repository.rs:42-53 | the rules of one base path come in non-decreasing `sourceFile` order, each from a readable `.rules` file of the walk, none shadowed |
| RuleRepository.DirRulesIgnoreWalkOrder | src/infrastructure/rule_repository.rs:42-43 | two walks listing the same entries in any order, each path naming one entry, load the same rules |
| FsRepo.DirRules | src/infrastructure/fs_repo.rs:21-50 | a missing base path gives no rules; every rule of a base path comes from a `.rules` file |
| FsRepo.AllRules | src/infrastructure/fs_repo.rs:118-129 | every rule loaded from any base path comes from a `.rules` file |
| FsRepo.ParseFile | src/infrastructure/fs_repo.rs:52-113 | the older reader reads lines exactly as the newer one does, without the `shadowed` flag; an unreadable file is an error naming its path |
| FsRepo.LoadRulesFromDir | src/infrastructure/fs_repo.rs:21-50 | the rules of the `.rules` files of a base path in walk order; a missing path gives none; an unreadable file is skipped |
| FsRepo.LoadAll | src/infrastructure/fs_repo.rs:118-129 | the rules of all base paths in base path order; loading never fails |
| FsRepo.SortedWalkMatchesNewerLoader | src/infrastructure/fs_repo.rs:30-38 | on a walk already in path order, each path naming one entry, the older loader gives the newer loader's rules without the `shadowed` flag |
| FsRepo.WalkOrderKept | src/infrastructure/fs_repo.rs:30-38 | each loaded rule names, in `sourceFile`, the walk entry it was read from; of any two rules, the earlier comes from an entry at the same or an earlier position in the walk |
| FsRepo.SkippedEntry | src/infrastructure/fs_repo.rs:30-44 | an entry that is not a readable `.rules` file can be removed from the walk without changing the result |
| FsRepo.MissingOrEmptyBasePath | src/infrastructure/fs_repo.rs:118-129 | a base path that does not exist, or whose walk is empty, can be removed from the list without changing the result |
| RuleService.Filter | src/application/rule_service.rs:24-35 | a rule is in the result exactly when it is among the loaded rules and its name or its comment, lower-cased, contains the query |
| RuleService.SearchRules | src/application/rule_service.rs:18-38 | a load error is passed on unchanged; otherwise the result holds exactly the loaded rules that match the lower-cased query |
| RuleService.FilterIsOrderedSubsequence | src/application/rule_service.rs:24-35 | the result is the loaded rules read at exactly the matching positions, in increasing position order |
| RuleService.QueryCaseIgnored | src/application/rule_service.rs:22 | upper-, lower- and mixed-case spellings of a query give the same result |
| RuleService.EmptyQueryFindsNamedOrCommented | src/application/rule_service.rs:27-33 | a rule with neither name nor comment is never found; the empty query finds exactly the rules that have one of them |
| RuleService.FilterIdempotent | src/application/rule_service.rs:24-35 | searching the result again with the same query changes nothing |
| ProcessService.ToI32 | src/application/process_service.rs:36 | the `as i32` cast lands in the 32-bit range and agrees with its argument modulo 2^32 |
| ProcessService.ToI32Identity | src/application/process_service.rs:36 | values already in the 32-bit range are unchanged by the cast |
| ProcessService.ReadNice | src/application/process_service.rs:95-102 | the nice value is always reported, unchanged, whichever branch of the range test is taken |
| ProcessService.ReadOomScore | src/application/process_service.rs:104-111 | an unreadable file gives no score; a score read is a 32-bit integer |
| ProcessService.ReadOomScoreOfKernelLine | src/application/process_service.rs:104-111 | the file as the kernel writes it, a decimal number and a newline, reads back as that number |
| ProcessService.CgroupInIsFirstNamingLine | src/application/process_service.rs:113-133 | the cgroup is `/` exactly when no line has exactly three `:`-separated fields with a third field that is neither empty nor `/`; otherwise it is the third field of the first line that does |
| ProcessService.ReadCgroup | src/application/process_service.rs:113-133 | the loop over the lines returns the third field of the first line with exactly three `:`-separated fields whose third field is neither empty nor `/`, returns `/` when there is no such line, and returns nothing when the file is unreadable |
| ProcessService.CgroupIn | src/application/process_service.rs:118-132 | the cgroup found in the lines is never empty and holds no `:` |
| ProcessService.CgroupOf | src/application/process_service.rs:113-133 | no cgroup exactly when the file is unreadable; a cgroup found is never empty |
| ProcessService.ShortenCgroup | src/application/process_service.rs:65-82 | a path is either kept or replaced by a text starting with `.../`, and it is replaced only when it starts with `/user.slice` and has more than four `/`-separated parts |
| ProcessService.InfoOf | src/application/process_service.rs:36-54 | the information keeps the process name; the pid is cast to 32 bits and unchanged when it fits; nice is always present; cgroup, policy and IO class are missing exactly when their read or call failed |
| ProcessService.InfosFor | src/application/process_service.rs:27-58 | at most one entry per process, each for a process whose name equals the rule name ignoring case |
| ProcessService.ProcessService.IsProcessActive | src/application/process_service.rs:60-63 | in a consistent service, a rule name is active exactly when some process in the snapshot has that name, ignoring case |
| ProcessService.ShortFormIsTail | src/application/process_service.rs:65-82 | the shortened form of a long `/user.slice` path is `.../` followed by its last two components |
| ProcessService.ShortenCgroupShape | src/application/process_service.rs:67-78 | a path is changed exactly when it starts with `/user.slice` and has more than four `/`-separated parts, and then it becomes `.../` followed by its last two components |
| ProcessService.ShortenCgroupIdempotent | src/application/process_service.rs:65-82 | shortening an already shortened path changes nothing |
| ProcessService.DecodePolicy | src/application/process_service.rs:139-155 | no policy exactly when the call failed (negative result) |
| ProcessService.PolicyRoundTrip | src/application/process_service.rs:139-155 | every non-negative policy code decodes to a name that maps back to the same code, including the `Unknown(n)` names |
| ProcessService.ReadIoPriority | src/application/process_service.rs:201-226 | no IO class exactly when the call failed (negative result) |
| ProcessService.IoPriorityOfClass | src/application/process_service.rs:207-217 | the class is taken from the bits above bit 13: a value `class * 8192 + data` with `data < 8192` decodes to the name of `class` |
| ProcessService.IoClassRoundTrip | src/application/process_service.rs:210-217 | every class id decodes to a name that maps back to the same id |
| ProcessService.InfosForMatches | src/application/process_service.rs:27-58 | the information found for a rule name is one entry per process whose name equals the rule name ignoring case, and describes that process |
| ProcessService.ProcessService.constructor | src/application/process_service.rs:16-25 | a new service holds the given snapshot and a name set consistent with it |
| ProcessService.ProcessService.UpdateProcesses | src/application/process_service.rs:84-93 | the snapshot is replaced and the name set is rebuilt as the lower-cased names of its processes |
| ProcessService.ProcessService.GetProcessInfos | src/application/process_service.rs:27-58 | the loop returns the information of every snapshot process with the rule's name, ignoring case, in snapshot order |
| ProcessService.ProcessService.ActiveIffFound | src/application/process_service.rs:60-63 | a rule's process is active exactly when looking up its information finds some process |
| Cli.CheckI32 | src/presentation/cli.rs:191-212 | agreement exactly when both values exist and are equal; a mismatch exactly when both exist and differ; nothing shown exactly when the process value is missing |
| Cli.CheckStr | src/presentation/cli.rs:214-235 | the same three cases, with values compared ignoring ASCII case |
| Cli.CheckCgroup | src/presentation/cli.rs:237-261 | nothing shown exactly when the process cgroup is missing |
| Cli.CheckCgroupDecidesOnFullPaths | src/presentation/cli.rs:237-261 | the cgroup check decides on the full paths, exactly as the string check does, but shows shortened paths in a mismatch or an info part |
| Cli.CheckStrAgreementSymmetric | src/presentation/cli.rs:218 | string agreement is symmetric and does not depend on upper-casing |
| Cli.CheckI32ShowsValues | src/presentation/cli.rs:191-212 | a mismatch shows the process value and the wanted value in decimal, and reading those texts back gives the values |
| Cli.StatusLineIsReference | src/presentation/cli.rs:129-168 | the status line is, in attribute order, one part per attribute the process reports, with that attribute's verdict |
| Cli.StatusLineShape | src/presentation/cli.rs:129-168 | a part is in the status line exactly when the process reports the attribute and the part holds its verdict; no part is empty; attributes appear in strictly increasing display order |
| Cli.RtprioNotCompared | src/presentation/cli.rs:134-162 | the static priority plays no part in the status line, for the rule or for the process |
| Cli.VerdictFor | src/presentation/cli.rs:134-162 | an attribute's part is empty exactly when the process does not report it, and is an info part exactly when the process reports it and the rule does not |
| Cli.Candidates | src/presentation/cli.rs:134-162 | at most one part per attribute; a part is pushed only for an attribute the rule or the process has, and holds that attribute's verdict |
| Cli.StatusLine | src/presentation/cli.rs:129-168 | at most one part per attribute; every part kept is non-empty, for an attribute the process reports, with its verdict |
| Cli.DisplayName | src/presentation/cli.rs:52-57 | the rule's name, or the unknown label when it has none |
| Cli.StatusFor | src/presentation/cli.rs:129-168 | no status without a matching process; otherwise every part compares the rule with the first process, for an attribute that process reports |
| Cli.InfoLines | src/presentation/cli.rs:178-185 | no info lines for a rule without comment; no info line holds a newline |
| Cli.ReportFor | src/presentation/cli.rs:45-83 | a pid exactly when some process matches, and then the first one's; the marker exactly for shadowed rules; the display name and category of the rule; status parts only for attributes the first process reports |
| Cli.ReportOf | src/presentation/cli.rs:45-185 | the report built step by step for one rule is the report of the rule with the information the service finds for its display name |
| Cli.Category | src/presentation/cli.rs:45-50 | the category is the name of the directory that holds the rule's file, or `root` when the path has no parent name |
| Cli.ReportUsesFirstProcess | src/presentation/cli.rs:59-83 | only the first matching process is compared and shown; with none there is no pid and no status; the marker appears exactly for shadowed rules |
| Cli.InfoLinesAreCommentLines | src/presentation/cli.rs:178-185 | the lines printed under a parsed rule are its comment lines, each a trimmed `#` line, and they join back into the comment |
| Cli.SearchResults | src/presentation/cli.rs:30-189 | one report per rule, in rule order, each built from the rule and the information the service finds for the rule's display name |
| Paths.ExtensionOfShape | src/infrastructure/rule_repository.rs:47 | a file name other than `..` has extension `e` exactly when it is some non-empty stem, a dot and `e`, where `e` has no dot |
| Paths.SortByPath | src/infrastructure/rule_repository.rs:42-43 | the sorted walk is in non-decreasing path order and is a permutation of the walk |
| Paths.PathLeTotal | src/infrastructure/rule_repository.rs:43 | the component-wise path order is total |
| Paths.PathLeAntisymmetric | src/infrastructure/rule_repository.rs:43 | the path order is antisymmetric |
| Paths.PathLeTransitive | src/infrastructure/rule_repository.rs:43 | the path order is transitive |
| Paths.SortIgnoresWalkOrder | src/infrastructure/rule_repository.rs:42-43 | sorting two walks with the same entries, and paths that identify their entries, gives the same sequence |
| Text.TrimPadded | src/infrastructure/rule_repository.rs:77 | trimming a text that starts and ends with non-whitespace, followed by whitespace, gives that text |
| Text.LinesOfJoin | src/presentation/cli.rs:178 | splitting a newline-joined list of non-empty, newline-free lines without trailing carriage return gives the list back |
| Text.JoinSplit | src/application/process_service.rs:72 | splitting on a separator and joining with it gives the text back |
| Text.SplitJoin | src/application/process_service.rs:72 | joining separator-free parts and splitting again gives the parts back |
| Text.LowerOfUpper | src/application/rule_service.rs:22 | lower-casing an upper-cased text gives the lower-cased text |
| Text.LowerIdempotent | src/application/rule_service.rs:22 | lower-casing twice is lower-casing once |
| Text.EqIgnoreAsciiCaseIsFoldedEquality | src/presentation/cli.rs:218 | equality ignoring ASCII case is equality of the lower-cased texts |
| Text.ContainsIffOccurs | src/application/rule_service.rs:30-33 | a text contains a needle exactly when the needle occurs at some position |
| Text.ParseShowI32 | src/application/process_service.rs:108 | parsing the decimal text of any 32-bit integer gives the integer back |
| Text.IntToStringInjective | src/presentation/cli.rs:196-201 | distinct integers are shown as distinct texts |

## Left out

- Case folding: Rust's `to_lowercase` is Unicode case folding, and here only ASCII letters are folded. This affects
  `RuleService.Matches`, `RuleService.SearchRules`, `ProcessService.NameKey` and `Cli.CheckStr`.
  `eq_ignore_ascii_case` is modelled exactly.
- RuleRepository.ParseFile: JSON decoding (serde_json) is an abstract `Decoder` parameter. No property of the JSON
  format is modelled.
- RuleRepository.LoadRulesFromDir: directory walking (WalkDir) and file reading are the `FileTree` input.
  - The walk's own order, symbolic links and I/O errors inside the walk are not modelled.
  - A read error is an entry with no content.
  - The `eprintln` warning on a skipped file is left out.
- Paths: a path is a sequence of components. The root, `.`, `..` and names that are not UTF-8 are not modelled.
- ProcessService.ProcessService.UpdateProcesses: the `sysinfo` refresh is left out; the new snapshot, in its order,
  is an input.
- Kernel reads are the `KernelReadings` inputs: the calls to `getpriority`, `sched_getscheduler`, `sched_getparam`,
  `sched_getattr` and `ioprio_get`, and the reads of `/proc/<pid>/oom_score_adj` and `/proc/<pid>/cgroup`.
- ProcessService.ReadNice: `read_nice` has no error handling. Both branches of its range test return the value, so a
  failed `getpriority` call shows as nice -1. `ReadNice` does the same.
- ProcessService.IoPriorityOfClass: the arithmetic shift `>> 13` is written as a Euclidean division by 8192. That is
  floor division, so it equals the shift for every 32-bit value. This includes the negative values that `result as i32`
  gives for results of 2^31 or more.
- RuleService.SearchRules: the search is modelled over an already loaded rule list. The hard-coded `./test_rules`
  directory it loads from is not modelled.
- Cli.SearchResults: the report is modelled as data.
  - Colours, translated messages and the printing itself are left out.
  - All printing is left out. This includes:
    - the "no rules found" and "rules found" lines;
    - the rule header's type, nice, latency, scheduling, IO, static priority, OOM and cgroup fields;
    - the file line.
- Integer widths of inputs: the number fields of `RuleRecord`, `ProcessInfo` and `KernelReadings` are unbounded `int`,
  where the program has `i32` and `c_long`. They are inputs that the model only compares, shows or casts explicitly
  (`ToI32`), so no property depends on their width.
- Shadowing resolution and the sorting of search results by category and name are not in the code. Nothing is
  modelled for them.
- `src/infrastructure/config.rs`, `src/infrastructure/config_repository.rs`, `src/presentation/tui.rs`,
  `src/main.rs` and `src/lib.rs` are not part of this model.
