/** `PortsRelease`: find the process listening on a TCP port by running the
    platform's socket-listing command and reading its output, kill it, and do
    both for a list of ports. The operating system's name and everything a
    command prints or returns are inputs; the log is a sequence of events. */
module ReleasePorts {
  import opened Wrappers
  import Text

  const ProxyServer: int := 6277
  const InspectorClient: int := 6274

  datatype Platform = Windows | Linux | Darwin | Other(name: string)

  /** The three names the command tables have entries for. */
  predicate Supported(name: string)
  {
    name == "Windows" || name == "Linux" || name == "Darwin"
  }

  /** What `platform.system()` returns, read as the tables read it: a name
      without a table entry is `Other`, and `Other` never carries one of the
      three supported names. */
  type System = p: Platform | p.Other? ==> !Supported(p.name) witness Windows

  function SystemName(sys: System): string
  {
    match sys
    case Windows => "Windows"
    case Linux => "Linux"
    case Darwin => "Darwin"
    case Other(name) => name
  }

  /** The dictionary lookup on the system's name: exactly the three supported
      names select a table entry. */
  function SystemOf(name: string): (sys: System)
    ensures SystemName(sys) == name
    ensures sys.Other? <==> !Supported(name)
  {
    if name == "Windows" then Windows
    else if name == "Linux" then Linux
    else if name == "Darwin" then Darwin
    else Other(name)
  }

  /** Reading a system's name back gives the same system: the name alone
      decides which table entry applies. */
  lemma SystemOfName(sys: System)
    ensures SystemOf(SystemName(sys)) == sys
  {
  }

  /** An element of the port list: a Python int, or anything else, shown by
      its text. */
  datatype PortArg = IntPort(port: int) | NotInt(repr: string)

  /** What the socket-listing command gives back: its standard output and
      standard error, both decoded. */
  datatype CmdOutput = CmdOutput(stdout: string, stderr: string)

  /** What the kill command gives back: its return code and standard error. */
  datatype KillOutput = KillOutput(returncode: int, stderr: string)

  /** What gets logged. The text of each kind is fixed by `Message`. */
  datatype LogEvent =
    | UnsupportedOs(system: string)
    | CmdError(stderr: string)
    | LineParseFailed(line: string)
    | Unexpected(error: string)
    | InvalidPort(repr: string)
    | NoProcess(port: int)
    | ProcessFound(port: int, pid: int)
    | Terminated(pid: int, port: int)
    | TerminateFailed(pid: int, onPort: Option<int>, reason: Option<string>)

  datatype Level = Info | Error

  function LevelOf(e: LogEvent): Level
  {
    if e.NoProcess? || e.ProcessFound? || e.Terminated? then Info else Error
  }

  /** `_log_terminate_failed`: the port and the error are appended only when
      they are truthy (a non-zero port, a non-empty error). */
  function TerminateFailedMessage(pid: int, port: Option<int>, error: Option<string>): (m: string)
    ensures "Failed to terminate process " + Text.IntToString(pid) <= m
    ensures error.Some? && error.value != "" ==> Text.EndsWith(m, ". Error: " + error.value)
    ensures !(error.Some? && error.value != "") ==>
              (m == "Failed to terminate process " + Text.IntToString(pid) <==> !(port.Some? && port.value != 0))
    ensures m == "Failed to terminate process " + Text.IntToString(pid)
                 + (if port.Some? && port.value != 0 then " (on port " + Text.IntToString(port.value) + ")" else "")
                 + (if error.Some? && error.value != "" then ". Error: " + error.value else "")
  {
    var base := "Failed to terminate process " + Text.IntToString(pid);
    var portPart := if port.Some? && port.value != 0 then " (on port " + Text.IntToString(port.value) + ")" else "";
    var errorPart := if error.Some? && error.value != "" then ". Error: " + error.value else "";
    Text.ConcatEnds(base, portPart, errorPart);
    base + portPart + errorPart
  }

  function Message(e: LogEvent): string
  {
    match e
    case UnsupportedOs(system) => "Unsupported OS: " + system
    case CmdError(stderr) => "Error running command: " + stderr
    case LineParseFailed(line) => "Could not parse PID from line: " + line
    case Unexpected(error) => "An unexpected error occurred: " + error
    case InvalidPort(repr) => "Invalid port number: " + repr + ". Skipping."
    case NoProcess(port) => "No process found listening on port " + Text.IntToString(port) + "."
    case ProcessFound(port, pid) =>
      "Process ID (PID) found for port " + Text.IntToString(port) + ": " + Text.IntToString(pid) + "."
    case Terminated(pid, port) =>
      "Process " + Text.IntToString(pid) + " (on port " + Text.IntToString(port) + ") terminated successfully."
    case TerminateFailed(pid, port, error) => TerminateFailedMessage(pid, port, error)
  }

  // ---------------------------------------------------------------------
  // The command tables
  // ---------------------------------------------------------------------

  /** The command that lists the sockets on a port; None on an unsupported
      system. Every command filters for `:<port>`. */
  function LookupCommand(sys: System, port: int): (cmd: Option<string>)
    ensures cmd.None? <==> sys.Other?
    ensures cmd.Some? ==> Text.Contains(cmd.value, ":" + Text.IntToString(port))
    ensures sys.Windows? ==> cmd == Some("netstat -ano | findstr :" + Text.IntToString(port))
    ensures sys.Linux? ==> cmd == Some("ss -lntp | grep :" + Text.IntToString(port))
    ensures sys.Darwin? ==> cmd == Some("lsof -i :" + Text.IntToString(port))
  {
    var digits := Text.IntToString(port);
    if sys.Other? then None
    else
      var head := match sys
        case Windows => "netstat -ano | findstr :"
        case Linux => "ss -lntp | grep :"
        case _ => "lsof -i :";
      var cmd := head + digits;
      assert cmd[|head| - 1..] == ":" + digits;
      SuffixContained(cmd, ":" + digits);
      Some(cmd)
  }

  /** The command that kills a process; None on an unsupported system. Linux
      and Darwin share `kill -9`. */
  function KillCommand(sys: System, pid: int): (cmd: Option<string>)
    ensures cmd.None? <==> sys.Other?
    ensures cmd.Some? ==> Text.Contains(cmd.value, Text.IntToString(pid))
    ensures sys.Windows? ==> cmd == Some("taskkill /F /PID " + Text.IntToString(pid))
    ensures sys.Linux? || sys.Darwin? ==> cmd == Some("kill -9 " + Text.IntToString(pid))
  {
    var digits := Text.IntToString(pid);
    if sys.Other? then None
    else
      var head := if sys.Windows? then "taskkill /F /PID " else "kill -9 ";
      SuffixContained(head + digits, digits);
      Some(head + digits)
  }

  lemma {:induction false} SuffixContained(s: string, tail: string)
    requires |tail| <= |s| && s[|s| - |tail|..] == tail
    ensures Text.Contains(s, tail)
    decreases |s|
  {
    if |s| > |tail| {
      assert s[1..][|s| - 1 - |tail|..] == tail;
      SuffixContained(s[1..], tail);
    } else {
      assert s[0..] == s;
    }
  }

  // ---------------------------------------------------------------------
  // Reading the command's output
  // ---------------------------------------------------------------------

  /** The first whitespace token containing `pid=`, if any. */
  function FirstPidPart(parts: seq<string>): (r: Option<nat>)
    ensures r.Some? ==> r.value < |parts| && Text.Contains(parts[r.value], "pid=")
    ensures r.Some? ==> forall j | 0 <= j < r.value :: !Text.Contains(parts[j], "pid=")
    ensures r.None? ==> forall j | 0 <= j < |parts| :: !Text.Contains(parts[j], "pid=")
  {
    if |parts| == 0 then None
    else if Text.Contains(parts[0], "pid=") then Some(0)
    else
      var r := FirstPidPart(parts[1..]);
      if r.Some? then Some(r.value + 1) else None
  }

  /** The text between the first and the second `=` of a token holding one. */
  function AfterFirstEquals(part: string): string
    requires '=' in part
  {
    Text.CountPresent(part, '=');
    Text.SplitOn(part, '=')[1]
  }

  /** The token a line offers as the PID, or None when the line is skipped:
      Windows takes token 4 of a line with more than 4 tokens, Darwin token 1
      of a line with more than 1, Linux the text after the first `=` of the
      first token containing `pid=`. */
  function Candidate(sys: System, parts: seq<string>): Option<string>
  {
    match sys
    case Windows => if |parts| > 4 then Some(parts[4]) else None
    case Darwin => if |parts| > 1 then Some(parts[1]) else None
    case Linux =>
      var k := FirstPidPart(parts);
      if k.None? then None
      else
        Text.ContainsChar(parts[k.value], "pid=", 3);
        Some(AfterFirstEquals(parts[k.value]))
    case Other(_) => None
  }

  /** The line is examined (it holds the port's decimal text) and offers a
      candidate token. */
  predicate Selects(sys: System, port: int, line: string)
  {
    Text.Contains(line, Text.IntToString(port)) && Candidate(sys, Text.Tokens(line)).Some?
  }

  datatype Scan = Found(pid: int) | Unparsable(line: string) | NoMatch

  /** What a selecting line decides: its PID, or a parse failure. */
  function Verdict(sys: System, port: int, line: string): (r: Scan)
    requires Selects(sys, port, line)
    ensures !r.NoMatch?
  {
    match Text.ParseInt(Candidate(sys, Text.Tokens(line)).value)
    case Some(pid) => Found(pid)
    case None => Unparsable(line)
  }

  /** The loop over the output's lines: the first selecting line decides. */
  function ScanLines(sys: System, port: int, lines: seq<string>): (r: Scan)
    ensures r.NoMatch? <==> forall i | 0 <= i < |lines| :: !Selects(sys, port, lines[i])
    ensures r.Unparsable? ==> r.line in lines
  {
    if |lines| == 0 then NoMatch
    else if Selects(sys, port, lines[0]) then Verdict(sys, port, lines[0])
    else
      var r := ScanLines(sys, port, lines[1..]);
      assert forall i | 1 <= i < |lines| :: lines[i] == lines[1..][i - 1];
      r
  }

  /** The scan's answer is the verdict of the first selecting line; the
      lines after it are never looked at. */
  lemma {:induction false} ScanIsFirst(sys: System, port: int, lines: seq<string>, i: nat)
    requires i < |lines| && Selects(sys, port, lines[i])
    requires forall j | 0 <= j < i :: !Selects(sys, port, lines[j])
    ensures ScanLines(sys, port, lines) == Verdict(sys, port, lines[i])
    decreases i
  {
    if i > 0 {
      ScanIsFirst(sys, port, lines[1..], i - 1);
    }
  }

  /** Lines after the deciding one do not matter. */
  lemma ScanIgnoresLaterLines(sys: System, port: int, lines: seq<string>, i: nat, later: seq<string>)
    requires i < |lines| && Selects(sys, port, lines[i])
    requires forall j | 0 <= j < i :: !Selects(sys, port, lines[j])
    ensures ScanLines(sys, port, lines[..i + 1] + later) == ScanLines(sys, port, lines)
  {
    var ls := lines[..i + 1] + later;
    assert forall j | 0 <= j <= i :: ls[j] == lines[j];
    ScanIsFirst(sys, port, lines, i);
    ScanIsFirst(sys, port, ls, i);
  }

  /** The result of `get_pid_by_port`: the command run (if any), the PID
      found (if any) and what was logged. */
  datatype Lookup = Lookup(ran: Option<string>, pid: Option<int>, logs: seq<LogEvent>)

  /** `get_pid_by_port`. `output` is what running the lookup command gives:
      its decoded output, or the exception it raised. */
  function GetPidByPort(sys: System, port: int, output: Call<CmdOutput>): (r: Lookup)
    ensures r.ran == LookupCommand(sys, port)
    ensures r.ran.None? ==> r.pid.None? && r.logs == [UnsupportedOs(SystemName(sys))]
    ensures r.ran.Some? && output.Raised? ==> r.pid.None? && r.logs == [Unexpected(output.error)]
    ensures r.ran.Some? && output.Returned? && output.value.stderr != "" ==>
              r.pid.None? && r.logs == [CmdError(output.value.stderr)]
    ensures r.pid.Some? ==>
              && r.logs == [] && output.Returned? && output.value.stderr == ""
              && ScanLines(sys, port, Text.Lines(output.value.stdout)) == Found(r.pid.value)
    ensures |r.logs| <= 1
    ensures forall i | 0 <= i < |r.logs| :: LookupLog(r.logs[i])
    ensures r.ran.Some? && output.Returned? && output.value.stderr == "" &&
            ScanLines(sys, port, Text.Lines(output.value.stdout)).NoMatch? ==>
              r.pid.None? && r.logs == []
  {
    var cmd := LookupCommand(sys, port);
    if cmd.None? then Lookup(None, None, [UnsupportedOs(SystemName(sys))])
    else match output
      case Raised(e) => Lookup(cmd, None, [Unexpected(e)])
      case Returned(CmdOutput(stdout, stderr)) =>
        if stderr != "" then Lookup(cmd, None, [CmdError(stderr)])
        else match ScanLines(sys, port, Text.Lines(stdout))
          case Found(pid) => Lookup(cmd, Some(pid), [])
          case Unparsable(line) => Lookup(cmd, None, [LineParseFailed(line)])
          case NoMatch => Lookup(cmd, None, [])
  }

  /** The kinds of record the lookup writes. */
  predicate LookupLog(e: LogEvent)
  {
    e.UnsupportedOs? || e.Unexpected? || e.CmdError? || e.LineParseFailed?
  }

  /** Nothing the lookup command could print matters on an unsupported
      system, nor once it has written to its standard error. */
  lemma OutputIgnored(sys: System, port: int, a: Call<CmdOutput>, b: Call<CmdOutput>)
    requires sys.Other? || (a.Returned? && b.Returned? && a.value.stderr == b.value.stderr != "")
    ensures GetPidByPort(sys, port, a) == GetPidByPort(sys, port, b)
  {
  }

  /** A found PID and a parse failure come from the first selecting line. */
  lemma LookupOfOutput(sys: System, port: int, stdout: string, i: nat)
    requires !sys.Other?
    requires i < |Text.Lines(stdout)| && Selects(sys, port, Text.Lines(stdout)[i])
    requires forall j | 0 <= j < i :: !Selects(sys, port, Text.Lines(stdout)[j])
    ensures var r := GetPidByPort(sys, port, Returned(CmdOutput(stdout, "")));
            var tok := Candidate(sys, Text.Tokens(Text.Lines(stdout)[i])).value;
            && (Text.ParseInt(tok).Some? ==> r.pid == Text.ParseInt(tok) && r.logs == [])
            && (Text.ParseInt(tok).None? ==> r.pid.None? && r.logs == [LineParseFailed(Text.Lines(stdout)[i])])
  {
    ScanIsFirst(sys, port, Text.Lines(stdout), i);
  }

  // ---------------------------------------------------------------------
  // Lines in the shapes the platforms print
  // ---------------------------------------------------------------------

  /** A Windows `netstat -ano` line: five or more space-separated fields
      mentioning the port, the PID fifth. */
  lemma WindowsLine(port: int, pid: int, fields: seq<string>)
    requires |fields| > 4 && fields[4] == Text.IntToString(pid)
    requires forall i | 0 <= i < |fields| :: |fields[i]| > 0 && Text.NoSpace(fields[i])
    requires Text.Contains(Text.Join(fields, " "), Text.IntToString(port))
    ensures Selects(Windows, port, Text.Join(fields, " "))
    ensures Verdict(Windows, port, Text.Join(fields, " ")) == Found(pid)
  {
    Text.TokensOfJoin(fields);
    Text.ParseIntOfIntToString(pid);
  }

  /** A Darwin `lsof -i` line: the PID is the second field. */
  lemma DarwinLine(port: int, pid: int, fields: seq<string>)
    requires |fields| > 1 && fields[1] == Text.IntToString(pid)
    requires forall i | 0 <= i < |fields| :: |fields[i]| > 0 && Text.NoSpace(fields[i])
    requires Text.Contains(Text.Join(fields, " "), Text.IntToString(port))
    ensures Selects(Darwin, port, Text.Join(fields, " "))
    ensures Verdict(Darwin, port, Text.Join(fields, " ")) == Found(pid)
  {
    Text.TokensOfJoin(fields);
    Text.ParseIntOfIntToString(pid);
  }

  lemma NoEqualsInDecimal(n: int)
    ensures '=' !in Text.IntToString(n)
  {
    var s := Text.IntToString(n);
    if n < 0 {
      assert s == "-" + Text.NatToString(-n);
      assert forall i | 1 <= i < |s| :: s[i] == Text.NatToString(-n)[i - 1];
    }
  }

  /** The part `pid=<n>` on a Linux line gives n when it is the first part
      containing `pid=`. */
  lemma LinuxLine(port: int, pid: int, fields: seq<string>, k: nat)
    requires k < |fields| && fields[k] == "pid=" + Text.IntToString(pid)
    requires forall j | 0 <= j < k :: !Text.Contains(fields[j], "pid=")
    requires forall i | 0 <= i < |fields| :: |fields[i]| > 0 && Text.NoSpace(fields[i])
    requires Text.Contains(Text.Join(fields, " "), Text.IntToString(port))
    ensures Selects(Linux, port, Text.Join(fields, " "))
    ensures Verdict(Linux, port, Text.Join(fields, " ")) == Found(pid)
  {
    Text.TokensOfJoin(fields);
    assert Text.Contains(fields[k], "pid=") by {
      assert "pid=" <= fields[k];
    }
    FirstPidIs(fields, k);
    PidPartValue(pid);
  }

  /** The text after `pid=` is the decimal PID itself. */
  lemma PidPartValue(pid: int)
    ensures '=' in "pid=" + Text.IntToString(pid)
    ensures Text.ParseInt(AfterFirstEquals("pid=" + Text.IntToString(pid))) == Some(pid)
  {
    var digits := Text.IntToString(pid);
    assert "pid=" + digits == "pid" + ['='] + digits;
    AfterFirstEqualsOf("pid", digits);
    NoEqualsInDecimal(pid);
    Text.SplitOnAbsent(digits, '=');
    Text.ParseIntOfIntToString(pid);
  }

  /** After a first `=` the token's value runs to the next `=`, or to the end. */
  lemma AfterFirstEqualsOf(a: string, b: string)
    requires '=' !in a
    ensures '=' in a + ['='] + b
    ensures AfterFirstEquals(a + ['='] + b) == Text.SplitOn(b, '=')[0]
  {
    assert (a + ['='] + b)[|a|] == '=';
    Text.SplitOnFirst(a, b, '=');
  }

  lemma {:induction false} FirstPidIs(parts: seq<string>, k: nat)
    requires k < |parts| && Text.Contains(parts[k], "pid=")
    requires forall j | 0 <= j < k :: !Text.Contains(parts[j], "pid=")
    ensures FirstPidPart(parts) == Some(k)
    decreases k
  {
    if k > 0 {
      FirstPidIs(parts[1..], k - 1);
    }
  }

  /** In the form `ss -lntp` really prints, `users:(("<name>",pid=<pid>,fd=<fd>))`,
      the text between the first and second `=` is `<pid>,fd`, which is not
      an int: such a line is a parse failure, never a PID. */
  lemma SsUsersPart(name: string, pid: int, fd: nat)
    requires '=' !in name
    ensures var part := "users:((\"" + name + "\",pid=" + Text.IntToString(pid) + ",fd=" + Text.NatToString(fd) + "))";
            && '=' in part
            && AfterFirstEquals(part) == Text.IntToString(pid) + ",fd"
            && Text.ParseInt(AfterFirstEquals(part)).None?
  {
    var digits := Text.IntToString(pid);
    var part := "users:((\"" + name + "\",pid=" + digits + ",fd=" + Text.NatToString(fd) + "))";
    var a := "users:((\"" + name + "\",pid";
    var b := digits + ",fd";
    var c := Text.NatToString(fd) + "))";
    assert part == a + ['='] + (b + ['='] + c) by {
      assert "\",pid=" == "\",pid" + ['='];
      assert ",fd=" == ",fd" + ['='];
    }
    assert '=' !in a by {
      assert a == "users:((\"" + name + "\",pid";
    }
    NoEqualsInDecimal(pid);
    assert '=' !in b;
    AfterFirstEqualsOf(a, b + ['='] + c);
    Text.SplitOnFirst(b, c, '=');
    assert b[|digits|] == ',';
    Text.ParseIntRejects(b, |digits|);
  }

  // ---------------------------------------------------------------------
  // kill_process
  // ---------------------------------------------------------------------

  datatype Kill = Kill(ran: Option<string>, ok: bool, logs: seq<LogEvent>)

  /** `kill_process`: true exactly when the system is supported, the command
      ran and its return code is 0. */
  function KillProcess(sys: System, pid: int, output: Call<KillOutput>): (r: Kill)
    ensures r.ran == KillCommand(sys, pid)
    ensures r.ok <==> !sys.Other? && output.Returned? && output.value.returncode == 0
    ensures r.ok <==> r.logs == []
    ensures sys.Other? ==> r.logs == [UnsupportedOs(SystemName(sys))]
    ensures !sys.Other? && output.Returned? && output.value.returncode != 0 ==>
              r.logs == [TerminateFailed(pid, None, Some(output.value.stderr))]
    ensures !sys.Other? && output.Raised? ==> r.logs == [Unexpected(output.error)]
    ensures forall i | 0 <= i < |r.logs| :: KillLog(r.logs[i])
  {
    var cmd := KillCommand(sys, pid);
    if cmd.None? then Kill(None, false, [UnsupportedOs(SystemName(sys))])
    else match output
      case Raised(e) => Kill(cmd, false, [Unexpected(e)])
      case Returned(KillOutput(code, stderr)) =>
        if code != 0 then Kill(cmd, false, [TerminateFailed(pid, None, Some(stderr))])
        else Kill(cmd, true, [])
  }

  /** The kinds of record the kill writes: its failures name no port. */
  predicate KillLog(e: LogEvent)
  {
    e.UnsupportedOs? || e.Unexpected? || (e.TerminateFailed? && e.onPort.None?)
  }

  // ---------------------------------------------------------------------
  // release_all
  // ---------------------------------------------------------------------

  /** The object: its default port list. */
  datatype PortsRelease = PortsRelease(defaultPorts: seq<PortArg>)

  /** The constructor: the given defaults, or [6277, 6274] when none are
      given (an empty list is kept as given). */
  function Init(defaultPorts: Option<seq<PortArg>>): (p: PortsRelease)
    ensures defaultPorts.Some? ==> p.defaultPorts == defaultPorts.value
    ensures defaultPorts.None? ==> p.defaultPorts == [IntPort(ProxyServer), IntPort(InspectorClient)]
  {
    PortsRelease(if defaultPorts.Some? then defaultPorts.value else [IntPort(ProxyServer), IntPort(InspectorClient)])
  }

  /** What `release_all` does, in order: each lookup, each kill request and
      each log record. */
  datatype Event = LookedUp(port: int) | KillRequested(pid: int) | Logged(log: LogEvent)

  function LogAll(logs: seq<LogEvent>): (r: seq<Event>)
    ensures |r| == |logs|
    ensures forall i | 0 <= i < |r| :: r[i] == Logged(logs[i])
  {
    seq(|logs|, i requires 0 <= i < |logs| => Logged(logs[i]))
  }

  /** The environment the ports are released in: the system, and what the
      lookup command prints for each port and the kill command gives for
      each PID. */
  datatype World = World(
    sys: System,
    lookupOutput: int -> Call<CmdOutput>,
    killOutput: int -> Call<KillOutput>)

  /** One turn of the loop. */
  function ReleaseOne(w: World, p: PortArg): seq<Event>
  {
    match p
    case NotInt(repr) => [Logged(InvalidPort(repr))]
    case IntPort(port) =>
      var lookup := GetPidByPort(w.sys, port, w.lookupOutput(port));
      [LookedUp(port)] + LogAll(lookup.logs) +
      match lookup.pid
      case None => [Logged(NoProcess(port))]
      case Some(pid) =>
        var kill := KillProcess(w.sys, pid, w.killOutput(pid));
        [Logged(ProcessFound(port, pid)), KillRequested(pid)] + LogAll(kill.logs) +
        [Logged(if kill.ok then Terminated(pid, port) else TerminateFailed(pid, Some(port), None))]
  }

  function ReleaseEach(w: World, ports: seq<PortArg>): seq<Event>
  {
    if |ports| == 0 then [] else ReleaseOne(w, ports[0]) + ReleaseEach(w, ports[1..])
  }

  lemma {:induction false} ReleaseEachAppend(w: World, a: seq<PortArg>, b: seq<PortArg>)
    ensures ReleaseEach(w, a + b) == ReleaseEach(w, a) + ReleaseEach(w, b)
    decreases |a|
  {
    if |a| > 0 {
      assert (a + b)[1..] == a[1..] + b;
      ReleaseEachAppend(w, a[1..], b);
    } else {
      assert a + b == b;
    }
  }

  /** One more turn of the loop over the ports extends the events by that
      port's turn. */
  lemma ReleaseEachStep(w: World, ps: seq<PortArg>, i: nat)
    requires i < |ps|
    ensures ReleaseEach(w, ps[..i + 1]) == ReleaseEach(w, ps[..i]) + ReleaseOne(w, ps[i])
  {
    ReleaseEachAppend(w, ps[..i], [ps[i]]);
    assert ps[..i + 1] == ps[..i] + [ps[i]];
    assert [ps[i]][1..] == [];
  }

  /** `release_all(ports)`: the given ports, or the object's defaults when
      none are given. */
  function ReleaseAll(pr: PortsRelease, w: World, ports: Option<seq<PortArg>>): seq<Event>
  {
    ReleaseEach(w, if ports.None? then pr.defaultPorts else ports.value)
  }

  /** The ports looked up, in order. */
  function Lookups(events: seq<Event>): seq<int>
  {
    if |events| == 0 then []
    else (if events[0].LookedUp? then [events[0].port] else []) + Lookups(events[1..])
  }

  /** The PIDs a kill was requested for, in order. */
  function Kills(events: seq<Event>): seq<int>
  {
    if |events| == 0 then []
    else (if events[0].KillRequested? then [events[0].pid] else []) + Kills(events[1..])
  }

  /** The int ports of a port list, in order. */
  function IntPorts(ports: seq<PortArg>): seq<int>
  {
    if |ports| == 0 then []
    else (if ports[0].IntPort? then [ports[0].port] else []) + IntPorts(ports[1..])
  }

  /** The PIDs the lookups of the int ports find, in order. */
  function FoundPids(w: World, ports: seq<PortArg>): seq<int>
  {
    if |ports| == 0 then []
    else
      var found := FoundPid(w, ports[0]);
      (if found.Some? then [found.value] else []) + FoundPids(w, ports[1..])
  }

  /** The PID the lookup finds for one port argument; none for a non-int. */
  function FoundPid(w: World, p: PortArg): Option<int>
  {
    if p.IntPort? then GetPidByPort(w.sys, p.port, w.lookupOutput(p.port)).pid else None
  }

  lemma {:induction false} LookupsAppend(a: seq<Event>, b: seq<Event>)
    ensures Lookups(a + b) == Lookups(a) + Lookups(b)
    decreases |a|
  {
    if |a| > 0 {
      assert (a + b)[1..] == a[1..] + b;
      LookupsAppend(a[1..], b);
    } else {
      assert a + b == b;
    }
  }

  lemma {:induction false} KillsAppend(a: seq<Event>, b: seq<Event>)
    ensures Kills(a + b) == Kills(a) + Kills(b)
    decreases |a|
  {
    if |a| > 0 {
      assert (a + b)[1..] == a[1..] + b;
      KillsAppend(a[1..], b);
    } else {
      assert a + b == b;
    }
  }

  lemma {:induction false} NoLookupsOrKillsInLogs(logs: seq<LogEvent>)
    ensures Lookups(LogAll(logs)) == [] && Kills(LogAll(logs)) == []
    decreases |logs|
  {
    if |logs| > 0 {
      NoLookupsOrKillsInLogs(logs[1..]);
      assert LogAll(logs)[1..] == LogAll(logs[1..]);
    }
  }

  lemma OneTurn(w: World, p: PortArg)
    ensures Lookups(ReleaseOne(w, p)) == (if p.IntPort? then [p.port] else [])
    ensures Kills(ReleaseOne(w, p)) == FoundPids(w, [p])
  {
    match p
    case NotInt(_) =>
    case IntPort(port) =>
      var lookup := GetPidByPort(w.sys, port, w.lookupOutput(port));
      NoLookupsOrKillsInLogs(lookup.logs);
      var head := [LookedUp(port)] + LogAll(lookup.logs);
      LookupsAppend([LookedUp(port)], LogAll(lookup.logs));
      KillsAppend([LookedUp(port)], LogAll(lookup.logs));
      assert FoundPids(w, [p]) == (if lookup.pid.Some? then [lookup.pid.value] else []) + FoundPids(w, []);
      match lookup.pid
      case None =>
        LookupsAppend(head, [Logged(NoProcess(port))]);
        KillsAppend(head, [Logged(NoProcess(port))]);
      case Some(pid) =>
        var kill := KillProcess(w.sys, pid, w.killOutput(pid));
        var last := Logged(if kill.ok then Terminated(pid, port) else TerminateFailed(pid, Some(port), None));
        var tail := [Logged(ProcessFound(port, pid)), KillRequested(pid)] + LogAll(kill.logs) + [last];
        NoLookupsOrKillsInLogs(kill.logs);
        LookupsAppend([Logged(ProcessFound(port, pid)), KillRequested(pid)], LogAll(kill.logs));
        KillsAppend([Logged(ProcessFound(port, pid)), KillRequested(pid)], LogAll(kill.logs));
        LookupsAppend([Logged(ProcessFound(port, pid)), KillRequested(pid)] + LogAll(kill.logs), [last]);
        KillsAppend([Logged(ProcessFound(port, pid)), KillRequested(pid)] + LogAll(kill.logs), [last]);
        LookupsAppend(head, tail);
        KillsAppend(head, tail);
  }

  /** Each int port is looked up exactly once and in the given order; no
      other value is looked up. */
  lemma {:induction false} LookupsAreIntPorts(w: World, ports: seq<PortArg>)
    ensures Lookups(ReleaseEach(w, ports)) == IntPorts(ports)
    decreases |ports|
  {
    if |ports| > 0 {
      OneTurn(w, ports[0]);
      LookupsAppend(ReleaseOne(w, ports[0]), ReleaseEach(w, ports[1..]));
      LookupsAreIntPorts(w, ports[1..]);
    }
  }

  /** A kill is requested exactly for each PID a lookup found, in order. */
  lemma {:induction false} KillsAreFoundPids(w: World, ports: seq<PortArg>)
    ensures Kills(ReleaseEach(w, ports)) == FoundPids(w, ports)
    decreases |ports|
  {
    if |ports| > 0 {
      OneTurn(w, ports[0]);
      KillsAppend(ReleaseOne(w, ports[0]), ReleaseEach(w, ports[1..]));
      KillsAreFoundPids(w, ports[1..]);
      FoundPidsCons(w, ports);
    }
  }

  lemma FoundPidsCons(w: World, ports: seq<PortArg>)
    requires |ports| > 0
    ensures FoundPids(w, ports) == FoundPids(w, [ports[0]]) + FoundPids(w, ports[1..])
  {
    assert [ports[0]][1..] == [];
  }

  /** A record the logs do not hold is not among their events. */
  lemma NotLogged(logs: seq<LogEvent>, e: LogEvent)
    requires forall i | 0 <= i < |logs| :: logs[i] != e
    ensures Logged(e) !in LogAll(logs)
  {
  }

  /** What one turn logs about its port: a non-int is reported invalid and
      nothing else happens; an int port is reported without a process
      exactly when its lookup finds no PID; otherwise the turn ends with the
      kill's outcome, success exactly when the kill succeeded and, failing
      that, a failure naming both the PID and the port. */
  lemma TurnLogs(w: World, p: PortArg)
    ensures p.NotInt? ==> ReleaseOne(w, p) == [Logged(InvalidPort(p.repr))]
    ensures p.IntPort? ==>
              (Logged(NoProcess(p.port)) in ReleaseOne(w, p) <==> FoundPid(w, p).None?)
    ensures p.IntPort? && FoundPid(w, p).Some? ==>
              var pid := FoundPid(w, p).value;
              var ok := KillProcess(w.sys, pid, w.killOutput(pid)).ok;
              var events := ReleaseOne(w, p);
              && events[|events| - 1] ==
                   Logged(if ok then Terminated(pid, p.port) else TerminateFailed(pid, Some(p.port), None))
              && (Logged(Terminated(pid, p.port)) in events <==> ok)
              && (Logged(TerminateFailed(pid, Some(p.port), None)) in events <==> !ok)
  {
    if p.IntPort? {
      NoProcessTurn(w, p.port);
      if FoundPid(w, p).Some? {
        KillTurn(w, p.port, FoundPid(w, p).value);
      }
    }
  }

  lemma NoProcessTurn(w: World, port: int)
    ensures Logged(NoProcess(port)) in ReleaseOne(w, IntPort(port)) <==> FoundPid(w, IntPort(port)).None?
  {
    var lookup := GetPidByPort(w.sys, port, w.lookupOutput(port));
    var head := [LookedUp(port)] + LogAll(lookup.logs);
    NotLogged(lookup.logs, NoProcess(port));
    assert Logged(NoProcess(port)) !in head;
    match lookup.pid
    case None =>
      assert ReleaseOne(w, IntPort(port)) == head + [Logged(NoProcess(port))];
    case Some(pid) =>
      var kill := KillProcess(w.sys, pid, w.killOutput(pid));
      var last := Logged(if kill.ok then Terminated(pid, port) else TerminateFailed(pid, Some(port), None));
      var tail := [Logged(ProcessFound(port, pid)), KillRequested(pid)] + LogAll(kill.logs) + [last];
      NotLogged(kill.logs, NoProcess(port));
      assert Logged(NoProcess(port)) !in tail;
      assert ReleaseOne(w, IntPort(port)) == head + tail;
  }

  lemma KillTurn(w: World, port: int, pid: int)
    requires FoundPid(w, IntPort(port)) == Some(pid)
    ensures var ok := KillProcess(w.sys, pid, w.killOutput(pid)).ok;
            var events := ReleaseOne(w, IntPort(port));
            && events[|events| - 1] ==
                 Logged(if ok then Terminated(pid, port) else TerminateFailed(pid, Some(port), None))
            && (Logged(Terminated(pid, port)) in events <==> ok)
            && (Logged(TerminateFailed(pid, Some(port), None)) in events <==> !ok)
  {
    var lookup := GetPidByPort(w.sys, port, w.lookupOutput(port));
    var kill := KillProcess(w.sys, pid, w.killOutput(pid));
    FoundTurnEnds(lookup.logs, kill.logs, port, pid, kill.ok);
  }

  /** The shape of a turn that found a PID, whatever the lookup and the kill
      logged along the way. */
  lemma FoundTurnEnds(lookupLogs: seq<LogEvent>, killLogs: seq<LogEvent>, port: int, pid: int, ok: bool)
    requires forall i | 0 <= i < |lookupLogs| :: LookupLog(lookupLogs[i])
    requires forall i | 0 <= i < |killLogs| :: KillLog(killLogs[i])
    ensures var last := Logged(if ok then Terminated(pid, port) else TerminateFailed(pid, Some(port), None));
            var events := [LookedUp(port)] + LogAll(lookupLogs) +
                          ([Logged(ProcessFound(port, pid)), KillRequested(pid)] + LogAll(killLogs) + [last]);
            && events[|events| - 1] == last
            && (Logged(Terminated(pid, port)) in events <==> ok)
            && (Logged(TerminateFailed(pid, Some(port), None)) in events <==> !ok)
  {
    NotLogged(lookupLogs, Terminated(pid, port));
    NotLogged(killLogs, Terminated(pid, port));
    NotLogged(lookupLogs, TerminateFailed(pid, Some(port), None));
    NotLogged(killLogs, TerminateFailed(pid, Some(port), None));
  }

  /** The texts of the invalid-port records, in order. */
  function Invalids(events: seq<Event>): seq<string>
  {
    if |events| == 0 then []
    else (if events[0].Logged? && events[0].log.InvalidPort? then [events[0].log.repr] else [])
         + Invalids(events[1..])
  }

  /** The texts of the non-int port arguments, in order. */
  function NonInts(ports: seq<PortArg>): seq<string>
  {
    if |ports| == 0 then []
    else (if ports[0].NotInt? then [ports[0].repr] else []) + NonInts(ports[1..])
  }

  lemma {:induction false} InvalidsAppend(a: seq<Event>, b: seq<Event>)
    ensures Invalids(a + b) == Invalids(a) + Invalids(b)
    decreases |a|
  {
    if |a| > 0 {
      assert (a + b)[1..] == a[1..] + b;
      InvalidsAppend(a[1..], b);
    } else {
      assert a + b == b;
    }
  }

  lemma {:induction false} NoInvalidsInLogs(logs: seq<LogEvent>)
    requires forall i | 0 <= i < |logs| :: !logs[i].InvalidPort?
    ensures Invalids(LogAll(logs)) == []
    decreases |logs|
  {
    if |logs| > 0 {
      NoInvalidsInLogs(logs[1..]);
      assert LogAll(logs)[1..] == LogAll(logs[1..]);
    }
  }

  /** An int port's turn reports no invalid port. */
  lemma TurnInvalids(w: World, p: PortArg)
    ensures Invalids(ReleaseOne(w, p)) == (if p.NotInt? then [p.repr] else [])
  {
    if p.IntPort? {
      var port := p.port;
      var lookup := GetPidByPort(w.sys, port, w.lookupOutput(port));
      NoInvalidsInLogs(lookup.logs);
      InvalidsAppend([LookedUp(port)], LogAll(lookup.logs));
      var head := [LookedUp(port)] + LogAll(lookup.logs);
      match lookup.pid
      case None =>
        InvalidsAppend(head, [Logged(NoProcess(port))]);
      case Some(pid) =>
        var kill := KillProcess(w.sys, pid, w.killOutput(pid));
        var last := Logged(if kill.ok then Terminated(pid, port) else TerminateFailed(pid, Some(port), None));
        var tail := [Logged(ProcessFound(port, pid)), KillRequested(pid)] + LogAll(kill.logs) + [last];
        KillTailInvalids(kill.logs, port, pid, last);
        InvalidsAppend(head, tail);
    }
  }

  lemma KillTailInvalids(logs: seq<LogEvent>, port: int, pid: int, last: Event)
    requires forall i | 0 <= i < |logs| :: KillLog(logs[i])
    requires last.Logged? && !last.log.InvalidPort?
    ensures Invalids([Logged(ProcessFound(port, pid)), KillRequested(pid)] + LogAll(logs) + [last]) == []
  {
    var front := [Logged(ProcessFound(port, pid)), KillRequested(pid)];
    NoInvalidsInLogs(logs);
    InvalidsAppend(front, LogAll(logs));
    InvalidsAppend(front + LogAll(logs), [last]);
  }

  /** Each non-int argument is reported invalid exactly once, in order, and
      nothing else is. */
  lemma {:induction false} InvalidsAreNonInts(w: World, ports: seq<PortArg>)
    ensures Invalids(ReleaseEach(w, ports)) == NonInts(ports)
    decreases |ports|
  {
    if |ports| > 0 {
      TurnInvalids(w, ports[0]);
      InvalidsAppend(ReleaseOne(w, ports[0]), ReleaseEach(w, ports[1..]));
      InvalidsAreNonInts(w, ports[1..]);
    }
  }

  /** Without a port list, the object's defaults are processed; with one,
      even an empty one, only that list. */
  lemma ReleaseAllPorts(pr: PortsRelease, w: World, ports: Option<seq<PortArg>>)
    ensures Lookups(ReleaseAll(pr, w, ports)) == IntPorts(if ports.None? then pr.defaultPorts else ports.value)
    ensures Kills(ReleaseAll(pr, w, ports)) == FoundPids(w, if ports.None? then pr.defaultPorts else ports.value)
  {
    LookupsAreIntPorts(w, if ports.None? then pr.defaultPorts else ports.value);
    KillsAreFoundPids(w, if ports.None? then pr.defaultPorts else ports.value);
  }

  /** With no arguments at all, ports 6277 and 6274 are looked up, in that
      order. */
  lemma DefaultPortsLookedUp(w: World)
    ensures Lookups(ReleaseAll(Init(None), w, None)) == [ProxyServer, InspectorClient]
  {
    ReleaseAllPorts(Init(None), w, None);
    var ps := [IntPort(ProxyServer), IntPort(InspectorClient)];
    assert ps[1..] == [IntPort(InspectorClient)] && ps[1..][1..] == [];
    assert IntPorts(ps[1..]) == [InspectorClient];
  }
}
