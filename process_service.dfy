/** What the inspector learns about running processes: the decoders that turn kernel
    answers into the values shown (nice, OOM score adjustment, cgroup, scheduling
    policy, real-time priority, latency nice, IO class), the cgroup path shortening,
    and the service object that keeps the last process snapshot and the set of its
    lower-cased process names.

    The kernel and `/proc` are not called: each process of a snapshot carries the
    answers the calls gave for it, as `KernelReadings`. */
module ProcessService {
  import opened Wrappers
  import opened Text
  import opened Models

  // ---------------------------------------------------------------------------
  // Integer width
  // ---------------------------------------------------------------------------

  const TwoTo32: int := 0x1_0000_0000

  /** The `as i32` cast: the value modulo 2^32, read as a two's complement number. */
  function ToI32(x: int): (v: int)
    ensures I32Min <= v <= I32Max
    ensures (x - v) % TwoTo32 == 0
  {
    var m := x % TwoTo32;
    if m > I32Max then m - TwoTo32 else m
  }

  /** The cast leaves values that already fit alone. */
  lemma ToI32Identity(x: int)
    requires I32Min <= x <= I32Max
    ensures ToI32(x) == x
  {
    if x < 0 {
      assert (x + TwoTo32) % TwoTo32 == x + TwoTo32;
    }
  }

  // ---------------------------------------------------------------------------
  // Nice and OOM score
  // ---------------------------------------------------------------------------

  /** The niceness reported for the value `getpriority` returned: present whether or
      not it lies in the usual range -20..19. */
  function ReadNice(val: int): (r: Option<int>)
    ensures r.Some? && r.value == val
  {
    if -20 <= val <= 19 then Some(val) else Some(val)
  }

  /** The OOM score adjustment: the trimmed content of `oom_score_adj` parsed as an
      `i32`, or nothing when the file cannot be read or does not parse. */
  function ReadOomScore(content: Option<string>): (r: Option<int>)
    ensures content.None? ==> r.None?
    ensures r.Some? ==> I32Min <= r.value <= I32Max
  {
    match content
    case None => None
    case Some(c) => ParseI32(Trim(c))
  }

  /** The kernel writes the adjustment as a decimal line; reading it back gives the
      value. */
  lemma ReadOomScoreOfKernelLine(n: int)
    requires I32Min <= n <= I32Max
    ensures ReadOomScore(Some(IntToString(n) + "\n")) == Some(n)
  {
    var s := IntToString(n);
    assert IsDigit(s[|s| - 1]) by {
      if n < 0 {
        assert s[|s| - 1] == NatToString(-n)[|NatToString(-n)| - 1];
      }
    }
    assert IsDigit(s[0]) || s[0] == '-' by {
      if n >= 0 {
        assert IsDigit(NatToString(n)[0]);
      }
    }
    TrimPadded(s, "\n");
    ParseShowI32(n);
  }

  // ---------------------------------------------------------------------------
  // Cgroup
  // ---------------------------------------------------------------------------

  /** A line of `/proc/<pid>/cgroup` names the process's cgroup when it has exactly
      three `:`-separated fields and the third is neither empty nor `/`. */
  predicate NamesCgroup(line: string) {
    var parts := Split(line, ':');
    |parts| == 3 && parts[2] != "/" && parts[2] != []
  }

  /** The cgroup named by the first line that names one, else the root `/`. */
  function CgroupIn(lines: seq<string>): (cgroup: string)
    ensures cgroup != []
    ensures ':' !in cgroup
    decreases |lines|
  {
    if lines == [] then "/"
    else if NamesCgroup(lines[0]) then Split(lines[0], ':')[2]
    else CgroupIn(lines[1..])
  }

  /** The cgroup read from the content of `/proc/<pid>/cgroup`; nothing when it cannot
      be read. */
  function CgroupOf(content: Option<string>): (cgroup: Option<string>)
    ensures cgroup.None? <==> content.None?
    ensures cgroup.Some? ==> cgroup.value != []
  {
    match content
    case None => None
    case Some(c) => Some(CgroupIn(Lines(c)))
  }

  /** `CgroupIn` is the third field of the first naming line, or `/` when no line
      names a cgroup. */
  lemma {:induction false} CgroupInIsFirstNamingLine(lines: seq<string>)
    ensures CgroupIn(lines) == "/" <==> forall k :: 0 <= k < |lines| ==> !NamesCgroup(lines[k])
    ensures CgroupIn(lines) != "/" ==>
              exists i :: 0 <= i < |lines| && NamesCgroup(lines[i])
                && CgroupIn(lines) == Split(lines[i], ':')[2]
                && forall k :: 0 <= k < i ==> !NamesCgroup(lines[k])
    decreases |lines|
  {
    if lines != [] {
      var tail := lines[1..];
      CgroupInIsFirstNamingLine(tail);
      assert forall k :: 1 <= k < |lines| ==> lines[k] == tail[k - 1];
      if !NamesCgroup(lines[0]) && CgroupIn(tail) != "/" {
        var i :| 0 <= i < |tail| && NamesCgroup(tail[i]) && CgroupIn(tail) == Split(tail[i], ':')[2]
                 && forall k :: 0 <= k < i ==> !NamesCgroup(tail[k]);
        assert lines[i + 1] == tail[i];
      }
    }
  }

  /** Scans the lines of `/proc/<pid>/cgroup` and stops at the first that names a
      cgroup. */
  method ReadCgroup(content: Option<string>) returns (r: Option<string>)
    ensures r == CgroupOf(content)
  {
    if content.None? {
      return None;
    }
    var lines := Lines(content.value);
    for i := 0 to |lines|
      invariant CgroupIn(lines[i..]) == CgroupIn(lines)
    {
      assert lines[i..][1..] == lines[i + 1..];
      var parts := Split(lines[i], ':');
      if |parts| == 3 {
        var cgroupPath := parts[2];
        if cgroupPath != "/" && cgroupPath != [] {
          return Some(cgroupPath);
        }
      }
    }
    assert lines[|lines|..] == [];
    return Some("/");
  }

  /** `shorten_cgroup`: a path under `/user.slice` with more than four `/`-separated
      parts is shown as `.../` followed by its last two parts; every other path is
      shown as it is. */
  function ShortenCgroup(path: string): (r: string)
    ensures r == path || ".../" <= r
    ensures r != path ==> "/user.slice" <= path && |Split(path, '/')| > 4
  {
    if path == "/" then path
    else
      var parts := Split(path, '/');
      if |parts| > 4 && "/user.slice" <= path then "..." + "/" + Join(parts[|parts| - 2..], "/")
      else path
  }

  /** The short form of a path under `/user.slice` with more than four parts is
      `.../` and the tail of the path that holds its last two parts. */
  lemma ShortFormIsTail(path: string)
    requires |Split(path, '/')| > 4 && "/user.slice" <= path
    ensures var parts := Split(path, '/');
            exists head, tail :: path == head + "/" + tail
              && ShortenCgroup(path) == ".../" + tail
              && Split(tail, '/') == parts[|parts| - 2..]
  {
    var parts := Split(path, '/');
    var n := |parts|;
    var front, last := parts[..n - 2], parts[n - 2..];
    var tail := Join(last, "/");
    JoinSplit(path, '/');
    assert front + last == parts;
    JoinAppend(front, last, "/");
    var head := Join(front, "/");
    assert path == head + "/" + tail;
    SplitJoin(last, '/');
  }

  /** A path is shortened exactly when it lies under `/user.slice` and has more than
      four parts; the short form is `.../` and a tail of the path that holds its last
      two parts. */
  lemma ShortenCgroupShape(path: string)
    ensures var parts := Split(path, '/');
            ShortenCgroup(path) != path <==> |parts| > 4 && "/user.slice" <= path
    ensures var parts := Split(path, '/');
            ShortenCgroup(path) != path ==>
              exists head, tail :: path == head + "/" + tail
                && ShortenCgroup(path) == ".../" + tail
                && Split(tail, '/') == parts[|parts| - 2..]
  {
    if |Split(path, '/')| > 4 && "/user.slice" <= path {
      assert path[0] == '/';
      assert ShortenCgroup(path)[0] == '.';
      ShortFormIsTail(path);
    }
  }

  /** Shortening twice is shortening once: a short form starts with `...`, which is
      not under `/user.slice`. */
  lemma ShortenCgroupIdempotent(path: string)
    ensures ShortenCgroup(ShortenCgroup(path)) == ShortenCgroup(path)
  {
    var r := ShortenCgroup(path);
    if r != path {
      assert r[0] == '.';
    }
  }

  // ---------------------------------------------------------------------------
  // Scheduling policy
  // ---------------------------------------------------------------------------

  /** The text shown for a code the inspector has no name for. */
  function Unknown(code: int): string {
    "unknown(" + IntToString(code) + ")"
  }

  /** The policy name for the value `sched_getscheduler` returned: nothing on failure,
      the Linux names for SCHED_OTHER, SCHED_FIFO, SCHED_RR, SCHED_BATCH, SCHED_IDLE and
      SCHED_DEADLINE, and `unknown(<code>)` otherwise. */
  function DecodePolicy(policyResult: int): (r: Option<string>)
    ensures r.None? <==> policyResult < 0
  {
    if policyResult >= 0 then
      match policyResult
      case 0 => Some("normal")
      case 1 => Some("fifo")
      case 2 => Some("rr")
      case 3 => Some("batch")
      case 5 => Some("idle")
      case 6 => Some("deadline")
      case _ => Some(Unknown(policyResult))
    else None
  }

  /** The code inside an `unknown(<code>)` text. */
  function UnknownCode(name: string): Option<int> {
    if |name| >= 9 && name[..8] == "unknown(" && name[|name| - 1] == ')' then ParseI32(name[8..|name| - 1])
    else None
  }

  /** The policy code a shown name stands for. */
  function PolicyCode(name: string): Option<int> {
    if name == "normal" then Some(0)
    else if name == "fifo" then Some(1)
    else if name == "rr" then Some(2)
    else if name == "batch" then Some(3)
    else if name == "idle" then Some(5)
    else if name == "deadline" then Some(6)
    else UnknownCode(name)
  }

  lemma UnknownCodeOfUnknown(code: int)
    requires I32Min <= code <= I32Max
    ensures UnknownCode(Unknown(code)) == Some(code)
  {
    var name := Unknown(code);
    assert name[..8] == "unknown(";
    assert name[8..|name| - 1] == IntToString(code);
    ParseShowI32(code);
  }

  /** Every policy a 32-bit `sched_getscheduler` result decodes to names that result:
      different codes are shown differently. */
  lemma PolicyRoundTrip(code: int)
    requires 0 <= code <= I32Max
    ensures DecodePolicy(code).Some?
    ensures PolicyCode(DecodePolicy(code).value) == Some(code)
  {
    if code !in {0, 1, 2, 3, 5, 6} {
      var name := Unknown(code);
      assert name[0] == 'u';
      UnknownCodeOfUnknown(code);
    }
  }

  // ---------------------------------------------------------------------------
  // IO priority
  // ---------------------------------------------------------------------------

  /** Linux encodes the IO priority class in the bits above the lowest 13. */
  const IoprioClassShift: nat := 13
  const IoprioClassUnit: nat := 8192

  /** The IO class names of ioprio_get(2). */
  function IoClassName(id: int): string {
    match id
    case 0 => "none"
    case 1 => "realtime"
    case 2 => "best-effort"
    case 3 => "idle"
    case _ => Unknown(id)
  }

  /** The IO class for the value `ioprio_get` returned: nothing on failure, otherwise
      the name of the class in the bits above the lowest 13 of the value cast to `i32`
      (an arithmetic shift, so a floor division by 2^13). */
  function ReadIoPriority(result: int): (r: Option<string>)
    ensures r.None? <==> result < 0
  {
    if result >= 0 then
      var value := ToI32(result);
      var ioclassId := value / IoprioClassUnit;
      Some(IoClassName(ioclassId))
    else None
  }

  function IoClassId(name: string): Option<int> {
    if name == "none" then Some(0)
    else if name == "realtime" then Some(1)
    else if name == "best-effort" then Some(2)
    else if name == "idle" then Some(3)
    else UnknownCode(name)
  }

  /** A priority value built from a class and 13 bits of data decodes to that class. */
  lemma IoPriorityOfClass(ioclass: nat, data: nat)
    requires data < IoprioClassUnit && ioclass * IoprioClassUnit + data <= I32Max
    ensures ReadIoPriority(ioclass * IoprioClassUnit + data) == Some(IoClassName(ioclass))
  {
    ToI32Identity(ioclass * IoprioClassUnit + data);
  }

  /** The class name shown gives back the class: different classes are shown
      differently. */
  lemma IoClassRoundTrip(id: int)
    requires I32Min <= id <= I32Max
    ensures IoClassId(IoClassName(id)) == Some(id)
  {
    if id !in {0, 1, 2, 3} {
      assert IoClassName(id)[0] == 'u';
      UnknownCodeOfUnknown(id);
    }
  }

  // ---------------------------------------------------------------------------
  // Processes
  // ---------------------------------------------------------------------------

  /** The answers the kernel gave for one process: `getpriority`, the content of
      `oom_score_adj` and of `cgroup` (`None` when unreadable), `sched_getscheduler`,
      the priority from `sched_getparam` and the latency nice from `sched_getattr`
      (`None` when the call failed), and `ioprio_get`. */
  datatype KernelReadings = KernelReadings(
    priority: int,
    oomScoreFile: Option<string>,
    cgroupFile: Option<string>,
    schedPolicy: int,
    schedParam: Option<int>,
    schedAttrLatencyNice: Option<int>,
    ioprio: int)

  /** One process of a snapshot: its id, its name and what the kernel says about it. */
  datatype ProcessEntry = ProcessEntry(pid: nat, name: string, readings: KernelReadings)

  /** The information shown for one process. */
  function InfoOf(p: ProcessEntry): (info: ProcessInfo)
    ensures info.name == p.name
    ensures I32Min <= info.pid <= I32Max && (p.pid <= I32Max ==> info.pid == p.pid)
    ensures info.nice == Some(p.readings.priority)
    ensures info.cgroup.None? <==> p.readings.cgroupFile.None?
    ensures info.schedPolicy.None? <==> p.readings.schedPolicy < 0
    ensures info.ioclass.None? <==> p.readings.ioprio < 0
  {
    assert p.pid <= I32Max ==> ToI32(p.pid) == p.pid by {
      if p.pid <= I32Max {
        ToI32Identity(p.pid);
      }
    }
    var k := p.readings;
    ProcessInfo(
      ToI32(p.pid), p.name, ReadNice(k.priority), ReadOomScore(k.oomScoreFile), CgroupOf(k.cgroupFile),
      DecodePolicy(k.schedPolicy), k.schedParam, ReadIoPriority(k.ioprio), k.schedAttrLatencyNice)
  }

  /** The process name as the lookups compare it. */
  function NameKey(name: string): string {
    ToLowerAscii(name)
  }

  /** The information on every process of the snapshot whose name is the rule name,
      compared case-insensitively, in snapshot order. */
  function InfosFor(ps: seq<ProcessEntry>, ruleName: string): (infos: seq<ProcessInfo>)
    ensures |infos| <= |ps|
    ensures forall info :: info in infos ==> NameKey(info.name) == NameKey(ruleName)
    decreases |ps|
  {
    if ps == [] then []
    else
      var last := ps[|ps| - 1];
      InfosFor(ps[..|ps| - 1], ruleName) + (if NameKey(last.name) == NameKey(ruleName) then [InfoOf(last)] else [])
  }

  /** The information found for a name is one entry per process of that name, each
      describing such a process. */
  lemma {:induction false} InfosForMatches(ps: seq<ProcessEntry>, ruleName: string)
    ensures forall info :: info in InfosFor(ps, ruleName) ==>
              exists p :: p in ps && NameKey(p.name) == NameKey(ruleName) && info == InfoOf(p)
    ensures forall p :: p in ps && NameKey(p.name) == NameKey(ruleName) ==> InfoOf(p) in InfosFor(ps, ruleName)
    decreases |ps|
  {
    if ps != [] {
      var front := ps[..|ps| - 1];
      InfosForMatches(front, ruleName);
      assert forall p :: p in front ==> p in ps;
      assert forall p :: p in ps ==> p in front || p == ps[|ps| - 1];
    }
  }

  /** The lower-cased names of the processes of a snapshot. */
  function NameSet(ps: seq<ProcessEntry>): set<string> {
    set p | p in ps :: NameKey(p.name)
  }

  class ProcessService {
    /** The last snapshot of the running processes. */
    var processes: seq<ProcessEntry>
    /** The lower-cased names of the processes in that snapshot. */
    var activeProcessNames: set<string>

    /** The name set describes the snapshot: a name is in it exactly when some process
        of the snapshot has it, lower-cased. */
    ghost predicate Valid()
      reads this
    {
      forall n :: n in activeProcessNames <==> exists p :: p in processes && NameKey(p.name) == n
    }

    /** Takes a first snapshot. */
    constructor(snapshot: seq<ProcessEntry>)
      ensures Valid()
      ensures processes == snapshot
    {
      processes := [];
      activeProcessNames := {};
      new;
      UpdateProcesses(snapshot);
    }

    /** Replaces the snapshot and rebuilds the name set from it. */
    method UpdateProcesses(snapshot: seq<ProcessEntry>)
      modifies this
      ensures processes == snapshot
      ensures activeProcessNames == NameSet(snapshot)
      ensures Valid()
    {
      processes := snapshot;
      activeProcessNames := set p | p in snapshot :: NameKey(p.name);
    }

    /** Whether a process with the rule's name, ignoring case, is in the snapshot. */
    function IsProcessActive(ruleName: string): (active: bool)
      reads this
      ensures Valid() ==> (active <==> exists p :: p in processes && NameKey(p.name) == NameKey(ruleName))
    {
      NameKey(ruleName) in activeProcessNames
    }

    /** Collects the information on every process of the snapshot with the rule's
        name, ignoring case, in snapshot order. */
    method GetProcessInfos(ruleName: string) returns (processInfos: seq<ProcessInfo>)
      ensures processInfos == InfosFor(processes, ruleName)
    {
      var query := NameKey(ruleName);
      processInfos := [];
      for i := 0 to |processes|
        invariant processInfos == InfosFor(processes[..i], ruleName)
      {
        assert processes[..i + 1][..i] == processes[..i];
        var process := processes[i];
        if NameKey(process.name) == query {
          var k := process.readings;
          var pidInt := ToI32(process.pid);
          var nice := ReadNice(k.priority);
          var oomScoreAdj := ReadOomScore(k.oomScoreFile);
          var cgroup := ReadCgroup(k.cgroupFile);
          var schedPolicy := DecodePolicy(k.schedPolicy);
          var ioclass := ReadIoPriority(k.ioprio);
          processInfos := processInfos + [ProcessInfo(
            pidInt, process.name, nice, oomScoreAdj, cgroup, schedPolicy, k.schedParam, ioclass, k.schedAttrLatencyNice)];
        }
      }
      assert processes[..|processes|] == processes;
    }

    /** A rule's process is active exactly when looking it up finds some process. */
    lemma ActiveIffFound(ruleName: string)
      requires Valid()
      ensures IsProcessActive(ruleName) <==> InfosFor(processes, ruleName) != []
    {
      InfosForMatches(processes, ruleName);
      var infos := InfosFor(processes, ruleName);
      if IsProcessActive(ruleName) {
        var p :| p in processes && NameKey(p.name) == NameKey(ruleName);
        assert InfoOf(p) in infos;
      }
      if infos != [] {
        assert infos[0] in infos;
        var p :| p in processes && NameKey(p.name) == NameKey(ruleName) && infos[0] == InfoOf(p);
        assert NameKey(ruleName) in activeProcessNames;
      }
    }
  }
}
