/** The line-by-line reading of one `.rules` file: which lines become rules and which
    comment block each rule carries.

    The reader keeps a buffer of comment lines and a flag saying whether a rule has
    already been taken from the current block. A blank line empties the buffer and
    clears the flag; a `#` line is added to the buffer, which is emptied first when a
    rule was already taken from it; a `{` line that decodes becomes a rule carrying the
    buffer joined by newlines (no comment when the buffer is empty) and sets the flag;
    every other line, including a `{` line that does not decode, changes nothing.

    `Run` is that state machine. `Expected` is an independent description of the same
    result: a rule line carries the comment lines that follow the last group boundary
    before it, a boundary being a blank line or a rule line followed by a comment line.
    `RunMatchesExpected` proves the two agree. */
module RuleParsing {
  import opened Wrappers
  import opened Text
  import opened Paths
  import opened Models

  /** JSON decoding of one trimmed line into a rule record, left abstract: `None`
      when the line is not a valid rule object. */
  type Decoder = string -> Option<RuleRecord>

  /** What a line is to the reader, decided on its trimmed text. */
  datatype LineKind = Blank | Comment(text: string) | RuleLine(data: RuleRecord) | Other

  /** A line is blank when its trimmed text is empty, a comment when that text starts
      with `#`, a rule line when it starts with `{` and decodes, and otherwise skipped. */
  function Classify(line: string, decode: Decoder): (k: LineKind)
    ensures k.Blank? <==> Trim(line) == []
    ensures k.Comment? <==> Trim(line) != [] && Trim(line)[0] == '#'
    ensures k.Comment? ==> k.text == Trim(line)
    ensures k.RuleLine? <==> Trim(line) != [] && Trim(line)[0] == '{' && decode(Trim(line)).Some?
    ensures k.RuleLine? ==> decode(Trim(line)) == Some(k.data)
  {
    var t := Trim(line);
    if t == [] then Blank
    else if t[0] == '#' then Comment(t)
    else if t[0] == '{' then
      match decode(t)
      case Some(d) => RuleLine(d)
      case None => Other
    else Other
  }

  function Kinds(lines: seq<string>, decode: Decoder): (ks: seq<LineKind>)
    ensures |ks| == |lines|
  {
    seq(|lines|, i requires 0 <= i < |lines| => Classify(lines[i], decode))
  }

  // ---------------------------------------------------------------------------
  // The state machine
  // ---------------------------------------------------------------------------

  datatype ParserState = ParserState(buffer: seq<string>, inBlock: bool, rules: seq<EnrichedRule>)

  const Start := ParserState([], false, [])

  /** The comment a rule gets from the buffer. */
  function CommentOf(buffer: seq<string>): Option<string> {
    if buffer == [] then None else Some(Join(buffer, "\n"))
  }

  /** One line: rules are only ever appended, one for a rule line and none otherwise. */
  function Step(st: ParserState, k: LineKind, path: Path): (next: ParserState)
    ensures st.rules <= next.rules
    ensures |next.rules| == |st.rules| + (if k.RuleLine? then 1 else 0)
  {
    match k
    case Blank => ParserState([], false, st.rules)
    case Comment(t) => ParserState((if st.inBlock then [] else st.buffer) + [t], false, st.rules)
    case RuleLine(d) =>
      ParserState(st.buffer, true, st.rules + [EnrichedRule(d, CommentOf(st.buffer), path, false)])
    case Other => st
  }

  /** The lines `ks` read one after the other from `st`: the rules read before are
      kept, and at most one rule is added per line. */
  function RunFrom(st: ParserState, ks: seq<LineKind>, path: Path): (last: ParserState)
    ensures st.rules <= last.rules && |last.rules| <= |st.rules| + |ks|
    decreases |ks|
  {
    if ks == [] then st else Step(RunFrom(st, ks[..|ks| - 1], path), ks[|ks| - 1], path)
  }

  function Run(ks: seq<LineKind>, path: Path): (last: ParserState)
    ensures |last.rules| <= |ks|
  {
    RunFrom(Start, ks, path)
  }

  /** The rules read from the text of the file at `path`. */
  function ParseContent(path: Path, content: string, decode: Decoder): (rules: seq<EnrichedRule>)
    ensures |rules| <= |Lines(content)|
    ensures forall r :: r in rules ==> r.sourceFile == path && !r.shadowed
  {
    RunEmitsDecodedLines(Kinds(Lines(content), decode), path);
    Run(Kinds(Lines(content), decode), path).rules
  }

  // ---------------------------------------------------------------------------
  // The independent description
  // ---------------------------------------------------------------------------

  /** Position `j` of the lines `p` closes a comment group, seen from the end of `p`:
      a blank line, or a rule line with a comment line after it. */
  predicate Boundary(p: seq<LineKind>, j: nat)
    requires j < |p|
  {
    p[j].Blank? || (p[j].RuleLine? && exists k :: j < k < |p| && p[k].Comment?)
  }

  /** The last boundary before position `j`, or -1 when there is none. */
  function LastBoundary(p: seq<LineKind>, j: nat): (s: int)
    requires j <= |p|
    ensures -1 <= s < j
    ensures s >= 0 ==> Boundary(p, s)
    ensures forall m :: s < m < j ==> !Boundary(p, m)
    decreases j
  {
    if j == 0 then -1 else if Boundary(p, j - 1) then j - 1 else LastBoundary(p, j - 1)
  }

  /** The texts of the comment lines among `p`, in order. */
  function CommentsIn(p: seq<LineKind>): seq<string>
    decreases |p|
  {
    if p == [] then []
    else CommentsIn(p[..|p| - 1]) + (if p[|p| - 1].Comment? then [p[|p| - 1].text] else [])
  }

  /** The comment lines that attach to a rule line preceded by the lines `p`. */
  function Attached(p: seq<LineKind>): seq<string> {
    CommentsIn(p[LastBoundary(p, |p|) + 1..])
  }

  /** The last line of `p` that is not `Other` is a rule line. */
  predicate EndsInRule(p: seq<LineKind>) {
    exists j :: 0 <= j < |p| && p[j].RuleLine? && forall m :: j < m < |p| ==> p[m].Other?
  }

  /** One rule per decoded rule line, in order, each with its attached comment. */
  function Expected(ks: seq<LineKind>, path: Path): seq<EnrichedRule>
    decreases |ks|
  {
    if ks == [] then []
    else
      var p := ks[..|ks| - 1];
      var k := ks[|ks| - 1];
      Expected(p, path) + (if k.RuleLine? then [EnrichedRule(k.data, CommentOf(Attached(p)), path, false)] else [])
  }

  // ---------------------------------------------------------------------------
  // The state machine meets the description
  // ---------------------------------------------------------------------------

  /** A group start is determined by its two defining properties. */
  lemma LastBoundaryUnique(p: seq<LineKind>, s: int)
    requires -1 <= s < |p|
    requires s >= 0 ==> Boundary(p, s)
    requires forall m :: s < m < |p| ==> !Boundary(p, m)
    ensures LastBoundary(p, |p|) == s
  {
    var g := LastBoundary(p, |p|);
    assert g >= s by {
      if s >= 0 {
        assert Boundary(p, s);
      }
    }
    assert g <= s by {
      if g >= 0 {
        assert Boundary(p, g);
      }
    }
  }

  lemma CommentsInAllOther(p: seq<LineKind>)
    requires forall m :: 0 <= m < |p| ==> p[m].Other?
    ensures CommentsIn(p) == []
    decreases |p|
  {
    if p != [] {
      CommentsInAllOther(p[..|p| - 1]);
    }
  }

  /** A rule line followed only by rule lines and `Other` lines ends the lines in a rule. */
  lemma {:induction false} EndsInRuleWitness(p: seq<LineKind>, m: nat)
    requires m < |p| && p[m].RuleLine?
    requires forall x :: m < x < |p| ==> p[x].RuleLine? || p[x].Other?
    ensures EndsInRule(p)
    decreases |p| - m
  {
    if exists x :: m < x < |p| && p[x].RuleLine? {
      var x :| m < x < |p| && p[x].RuleLine?;
      EndsInRuleWitness(p, x);
    }
  }

  /** A line that is neither blank nor a comment keeps the attached comments; a rule
      line ends the lines in a rule and an `Other` line keeps whether they do. */
  lemma StepQuiet(p: seq<LineKind>, k: LineKind)
    requires k.RuleLine? || k.Other?
    ensures Attached(p + [k]) == Attached(p)
    ensures k.RuleLine? ==> EndsInRule(p + [k])
    ensures k.Other? ==> (EndsInRule(p + [k]) <==> EndsInRule(p))
  {
    var q := p + [k];
    var g := LastBoundary(p, |p|);
    BoundariesKept(p, k);
    LastBoundaryUnique(q, g);
    assert q[g + 1..][..|q[g + 1..]| - 1] == p[g + 1..];
    if k.RuleLine? {
      assert q[|p|].RuleLine?;
    } else {
      OtherKeepsEndsInRule(p, k);
    }
  }

  /** Appending a line that is not a comment line moves no earlier boundary. */
  lemma BoundariesKept(p: seq<LineKind>, k: LineKind)
    requires !k.Comment?
    ensures forall m :: 0 <= m < |p| ==> (Boundary(p + [k], m) <==> Boundary(p, m))
    ensures !k.Blank? ==> !Boundary(p + [k], |p|)
  {
    var q := p + [k];
    forall m | 0 <= m < |p| ensures Boundary(q, m) <==> Boundary(p, m) {
      if Boundary(q, m) && q[m].RuleLine? {
        var c :| m < c < |q| && q[c].Comment?;
        assert c < |p| && p[c].Comment?;
      }
      if Boundary(p, m) && p[m].RuleLine? {
        var c :| m < c < |p| && p[c].Comment?;
        assert q[c].Comment?;
      }
    }
  }

  lemma OtherKeepsEndsInRule(p: seq<LineKind>, k: LineKind)
    requires k.Other?
    ensures EndsInRule(p + [k]) <==> EndsInRule(p)
  {
    var q := p + [k];
    if EndsInRule(q) {
      var j :| 0 <= j < |q| && q[j].RuleLine? && forall m :: j < m < |q| ==> q[m].Other?;
      assert q[|p|].Other?;
      forall m | j < m < |p| ensures p[m].Other? {
        assert q[m] == p[m];
      }
    }
    if EndsInRule(p) {
      var j :| 0 <= j < |p| && p[j].RuleLine? && forall m :: j < m < |p| ==> p[m].Other?;
      assert q[j].RuleLine? && forall m :: j < m < |q| ==> q[m].Other?;
    }
  }

  /** A blank line leaves nothing attached and does not end the lines in a rule. */
  lemma StepBlank(p: seq<LineKind>)
    ensures Attached(p + [Blank]) == []
    ensures !EndsInRule(p + [Blank])
  {
    var q := p + [Blank];
    assert Boundary(q, |p|);
    assert LastBoundary(q, |q|) == |p|;
    assert q[|p| + 1..] == [];
  }

  /** A comment line after a rule starts a new group holding just that line. */
  lemma StepCommentAfterRule(p: seq<LineKind>, t: string)
    requires EndsInRule(p)
    ensures Attached(p + [Comment(t)]) == [t]
    ensures !EndsInRule(p + [Comment(t)])
  {
    NotEndsInRuleAfterComment(p, t);
    var r :| 0 <= r < |p| && p[r].RuleLine? && forall m :: r < m < |p| ==> p[m].Other?;
    LastRuleIsBoundary(p, t, r);
    var q := p + [Comment(t)];
    AttachedFrom(q, r);
    assert q[r + 1..] == p[r + 1..] + [Comment(t)];
    CommentAfterOthers(p[r + 1..], t);
  }

  /** The attached comments are those after the last boundary. */
  lemma AttachedFrom(q: seq<LineKind>, r: int)
    requires -1 <= r < |q| && LastBoundary(q, |q|) == r
    ensures Attached(q) == CommentsIn(q[r + 1..])
  {
  }

  /** Lines ending in a comment do not end in a rule. */
  lemma NotEndsInRuleAfterComment(p: seq<LineKind>, t: string)
    ensures !EndsInRule(p + [Comment(t)])
  {
    var q := p + [Comment(t)];
    assert !q[|p|].Other? && !q[|p|].RuleLine?;
  }

  /** The last rule line, followed only by `Other` lines and then a comment, is the
      last boundary. */
  lemma LastRuleIsBoundary(p: seq<LineKind>, t: string, r: nat)
    requires r < |p| && p[r].RuleLine? && forall m :: r < m < |p| ==> p[m].Other?
    ensures LastBoundary(p + [Comment(t)], |p| + 1) == r
  {
    var q := p + [Comment(t)];
    assert Boundary(q, r) by {
      assert q[|p|].Comment?;
    }
    forall m | r < m < |q| ensures !Boundary(q, m) {
      if m < |p| {
        assert q[m].Other?;
      }
    }
    LastBoundaryUnique(q, r);
  }

  /** A comment line after lines that are all `Other` is the only comment among them. */
  lemma CommentAfterOthers(others: seq<LineKind>, t: string)
    requires forall m :: 0 <= m < |others| ==> others[m].Other?
    ensures CommentsIn(others + [Comment(t)]) == [t]
  {
    var q := others + [Comment(t)];
    assert q[..|q| - 1] == others;
    CommentsInAllOther(others);
  }

  /** Lines that do not end in a rule hold no rule line after their last boundary. */
  lemma NoRuleInOpenGroup(p: seq<LineKind>)
    requires !EndsInRule(p)
    ensures forall m :: LastBoundary(p, |p|) < m < |p| ==> !p[m].RuleLine?
  {
    var g := LastBoundary(p, |p|);
    forall m | g < m < |p| ensures !p[m].RuleLine? {
      if p[m].RuleLine? {
        assert !Boundary(p, m);
        forall x | m < x < |p| ensures p[x].RuleLine? || p[x].Other? {
          assert !Boundary(p, x);
        }
        EndsInRuleWitness(p, m);
        assert false;
      }
    }
  }

  /** A comment line that does not follow a rule joins the current group. */
  lemma StepCommentExtends(p: seq<LineKind>, t: string)
    requires !EndsInRule(p)
    ensures Attached(p + [Comment(t)]) == Attached(p) + [t]
    ensures !EndsInRule(p + [Comment(t)])
  {
    var q := p + [Comment(t)];
    var g := LastBoundary(p, |p|);
    if g >= 0 {
      assert Boundary(q, g) by {
        if p[g].RuleLine? {
          var c :| g < c < |p| && p[c].Comment?;
          assert q[c].Comment?;
        }
      }
    }
    NoRuleInOpenGroup(p);
    forall m | g < m < |q| ensures !Boundary(q, m) {
      if m < |p| {
        assert !Boundary(p, m);
      }
    }
    LastBoundaryUnique(q, g);
    var tail := q[g + 1..];
    assert tail[..|tail| - 1] == p[g + 1..];
  }

  /** The state machine computes exactly the description: its buffer is the attached
      comment lines, its flag says whether the lines end in a rule, and its rules are
      the expected ones. */
  lemma {:induction false} RunMatchesExpected(ks: seq<LineKind>, path: Path)
    ensures Run(ks, path).buffer == Attached(ks)
    ensures Run(ks, path).inBlock <==> EndsInRule(ks)
    ensures Run(ks, path).rules == Expected(ks, path)
    decreases |ks|
  {
    if ks != [] {
      var p := ks[..|ks| - 1];
      var k := ks[|ks| - 1];
      assert ks == p + [k];
      RunMatchesExpected(p, path);
      match k
      case Blank => StepBlank(p);
      case Other => StepQuiet(p, k);
      case RuleLine(_) => StepQuiet(p, k);
      case Comment(t) =>
        if EndsInRule(p) {
          StepCommentAfterRule(p, t);
        } else {
          StepCommentExtends(p, t);
        }
    }
  }

  /** Reading a file yields exactly the expected rules of its classified lines. */
  lemma ParseContentIsExpected(path: Path, content: string, decode: Decoder)
    ensures ParseContent(path, content, decode) == Expected(Kinds(Lines(content), decode), path)
  {
    RunMatchesExpected(Kinds(Lines(content), decode), path);
  }

  // ---------------------------------------------------------------------------
  // Properties of the state machine
  // ---------------------------------------------------------------------------

  /** The records of the decoded rule lines, in order. */
  function Decoded(ks: seq<LineKind>): seq<RuleRecord>
    decreases |ks|
  {
    if ks == [] then []
    else Decoded(ks[..|ks| - 1]) + (if ks[|ks| - 1].RuleLine? then [ks[|ks| - 1].data] else [])
  }

  /** One rule per decoded rule line, in file order, each from `path` and not shadowed. */
  lemma {:induction false} RunEmitsDecodedLines(ks: seq<LineKind>, path: Path)
    ensures |Run(ks, path).rules| == |Decoded(ks)|
    ensures forall i :: 0 <= i < |Decoded(ks)| ==>
              Run(ks, path).rules[i].data == Decoded(ks)[i]
              && Run(ks, path).rules[i].sourceFile == path
              && !Run(ks, path).rules[i].shadowed
    decreases |ks|
  {
    if ks != [] {
      RunEmitsDecodedLines(ks[..|ks| - 1], path);
    }
  }

  /** Running over two stretches of lines is running over the first, then the second. */
  lemma {:induction false} RunFromAppend(st: ParserState, a: seq<LineKind>, b: seq<LineKind>, path: Path)
    ensures RunFrom(st, a + b, path) == RunFrom(RunFrom(st, a, path), b, path)
    decreases |b|
  {
    if b == [] {
      assert a + b == a;
    } else {
      assert (a + b)[..|a + b| - 1] == a + b[..|b| - 1];
      RunFromAppend(st, a, b[..|b| - 1], path);
    }
  }

  /** Rules already read are never changed: the reader only appends, and its buffer
      and flag do not depend on them. */
  lemma {:induction false} RunFromKeepsRules(st: ParserState, b: seq<LineKind>, path: Path)
    ensures var later := RunFrom(st.(rules := []), b, path);
            RunFrom(st, b, path) == ParserState(later.buffer, later.inBlock, st.rules + later.rules)
    decreases |b|
  {
    if b != [] {
      RunFromKeepsRules(st, b[..|b| - 1], path);
    }
  }

  /** A blank line ends every comment association: what follows it reads as a file of
      its own. */
  lemma BlankLineSeparates(a: seq<LineKind>, b: seq<LineKind>, path: Path)
    ensures Run(a + [Blank] + b, path).rules == Run(a, path).rules + Run(b, path).rules
  {
    RunFromAppend(Start, a + [Blank], b, path);
    assert (a + [Blank])[..|a|] == a;
    RunFromKeepsRules(Run(a + [Blank], path), b, path);
  }

  /** A comment line after a rule starts afresh: the rules after it read as if the
      file began with that comment line. */
  lemma CommentAfterRuleSeparates(a: seq<LineKind>, t: string, b: seq<LineKind>, path: Path)
    requires Run(a, path).inBlock
    ensures Run(a + [Comment(t)] + b, path).rules == Run(a, path).rules + Run([Comment(t)] + b, path).rules
  {
    RunFromAppend(Start, a + [Comment(t)], b, path);
    RunFromAppend(Start, [Comment(t)], b, path);
    assert (a + [Comment(t)])[..|a|] == a;
    assert [Comment(t)][..0] == [];
    RunFromKeepsRules(Run(a + [Comment(t)], path), b, path);
  }

  /** Consecutive rule lines all carry the same comment: the one buffered before them. */
  lemma {:induction false} ConsecutiveRulesShareComment(a: seq<LineKind>, r: seq<LineKind>, path: Path)
    requires forall i :: 0 <= i < |r| ==> r[i].RuleLine?
    ensures |Run(a + r, path).rules| == |Run(a, path).rules| + |r|
    ensures forall i :: 0 <= i < |r| ==>
              Run(a + r, path).rules[|Run(a, path).rules| + i] ==
              EnrichedRule(r[i].data, CommentOf(Run(a, path).buffer), path, false)
    ensures r != [] ==> Run(a + r, path).buffer == Run(a, path).buffer
    decreases |r|
  {
    if r == [] {
      assert a + r == a;
    } else {
      var r' := r[..|r| - 1];
      assert (a + r)[..|a + r| - 1] == a + r';
      assert r[|r| - 1].RuleLine?;
      assert Run(a + r, path) == Step(Run(a + r', path), r[|r| - 1], path);
      ConsecutiveRulesShareComment(a, r', path);

      if r' != [] {
        assert Run(a + r', path).buffer == Run(a, path).buffer;
      } else {
        assert a + r' == a;
      }
    }
  }

  /** A line that is neither blank, nor a comment, nor a decodable rule leaves the whole
      state as it was. */
  lemma SkippedLineChangesNothing(st: ParserState, line: string, decode: Decoder, path: Path)
    requires Trim(line) != [] && Trim(line)[0] != '#'
    requires Trim(line)[0] == '{' ==> decode(Trim(line)).None?
    ensures Step(st, Classify(line, decode), path) == st
  {
  }

  // ---------------------------------------------------------------------------
  // Context comments read back line by line
  // ---------------------------------------------------------------------------

  /** A trimmed comment line: it starts with `#`, holds no line break and does not end
      in a carriage return. */
  predicate CommentLine(t: string) {
    t != [] && t[0] == '#' && '\n' !in t && t[|t| - 1] != '\r'
  }

  /** A comment made by joining a non-empty run of comment lines. */
  ghost predicate JoinedCommentLines(c: string) {
    exists buffer: seq<string> :: buffer != [] && (forall t :: t in buffer ==> CommentLine(t)) && c == Join(buffer, "\n")
  }

  /** Every comment the classifier sees in the lines of a text is such a line. */
  lemma KindsCommentLines(content: string, decode: Decoder)
    ensures forall k :: 0 <= k < |Kinds(Lines(content), decode)| && Kinds(Lines(content), decode)[k].Comment? ==>
              CommentLine(Kinds(Lines(content), decode)[k].text)
  {
    var lines := Lines(content);
    var ks := Kinds(lines, decode);
    forall k | 0 <= k < |ks| && ks[k].Comment? ensures CommentLine(ks[k].text) {
      var t := Trim(lines[k]);
      assert ks[k] == Classify(lines[k], decode);
      assert ks[k].text == t;
      assert '\n' !in lines[k];
      assert !IsWhitespace(t[|t| - 1]);
    }
  }

  /** When every comment fed to the machine is a comment line, the buffer holds only
      comment lines and every comment attached to a rule is the join of a non-empty
      run of them. */
  lemma {:induction false} RunBuffersCommentLines(ks: seq<LineKind>, path: Path)
    requires forall k :: 0 <= k < |ks| && ks[k].Comment? ==> CommentLine(ks[k].text)
    ensures forall t :: t in Run(ks, path).buffer ==> CommentLine(t)
    ensures forall r :: r in Run(ks, path).rules && r.contextComment.Some? ==> JoinedCommentLines(r.contextComment.value)
    decreases |ks|
  {
    if ks != [] {
      var front := ks[..|ks| - 1];
      RunBuffersCommentLines(front, path);
      var before := Run(front, path);
      assert Run(ks, path) == Step(before, ks[|ks| - 1], path);
      forall r | r in Run(ks, path).rules && r.contextComment.Some?
        ensures JoinedCommentLines(r.contextComment.value)
      {
        if r !in before.rules {
          assert ks[|ks| - 1].RuleLine? && r.contextComment == CommentOf(before.buffer);
          var buffer := before.buffer;
          assert buffer != [] && (forall t :: t in buffer ==> CommentLine(t))
                 && r.contextComment.value == Join(buffer, "\n");
        }
      }
    } else {
      assert Run(ks, path) == Start;
      assert Run(ks, path).rules == [];
    }
  }

  /** The context comment of a parsed rule, split into lines, gives back the comment
      lines it was joined from: each starts with `#`, and joining them again gives the
      comment. */
  lemma ParsedCommentLines(path: Path, content: string, decode: Decoder)
    ensures forall r :: r in ParseContent(path, content, decode) && r.contextComment.Some? ==>
              Lines(r.contextComment.value) != []
              && (forall t :: t in Lines(r.contextComment.value) ==> CommentLine(t))
              && Join(Lines(r.contextComment.value), "\n") == r.contextComment.value
  {
    KindsCommentLines(content, decode);
    RunBuffersCommentLines(Kinds(Lines(content), decode), path);
    forall r | r in ParseContent(path, content, decode) && r.contextComment.Some?
      ensures Lines(r.contextComment.value) != []
              && (forall t :: t in Lines(r.contextComment.value) ==> CommentLine(t))
              && Join(Lines(r.contextComment.value), "\n") == r.contextComment.value
    {
      var buffer: seq<string> :| buffer != [] && (forall t :: t in buffer ==> CommentLine(t))
                                 && r.contextComment.value == Join(buffer, "\n");
      assert forall k :: 0 <= k < |buffer| ==> buffer[k] in buffer;
      LinesOfJoin(buffer);
    }
  }
}
