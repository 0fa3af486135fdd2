/** The older `PortsRelease` of the `nano_utils_yaronday` package, written as
    the loops it is. It reads the command output by the same rules and runs
    the same commands as the current version, so each method is proved to
    produce exactly what the current model does; only the wording of some
    log messages differs. */
module LegacyReleasePorts {
  import opened Wrappers
  import Text
  import R = ReleasePorts

  /** The older wording: no period after a found PID, "killed" instead of
      "terminated", and the error always appended after a failed kill. */
  function LegacyMessage(e: R.LogEvent): string
  {
    match e
    case ProcessFound(port, pid) =>
      "Process ID (PID) found for port " + Text.IntToString(port) + ": " + Text.IntToString(pid)
    case Terminated(pid, port) =>
      "Process " + Text.IntToString(pid) + " (on port " + Text.IntToString(port) + ") killed successfully."
    case TerminateFailed(pid, onPort, reason) =>
      var base := "Failed to kill process " + Text.IntToString(pid);
      if onPort.Some? then base + " (on port " + Text.IntToString(onPort.value) + ")."
      else if reason.Some? then base + ". Error: " + reason.value
      else base
    case _ => R.Message(e)
  }

  /** `get_pid_by_port`: the loop over the output's lines, and on Linux the
      inner loop over a line's tokens. */
  method GetPidByPort(sys: R.System, port: int, output: Call<R.CmdOutput>)
    returns (pid: Option<int>, logs: seq<R.LogEvent>)
    ensures R.Lookup(R.LookupCommand(sys, port), pid, logs) == R.GetPidByPort(sys, port, output)
  {
    var cmd := R.LookupCommand(sys, port);
    if cmd.None? {
      return None, [R.UnsupportedOs(R.SystemName(sys))];
    }
    if output.Raised? {
      return None, [R.Unexpected(output.error)];
    }
    var out := output.value;
    if out.stderr != "" {
      return None, [R.CmdError(out.stderr)];
    }
    var lines := Text.Lines(out.stdout);
    var i := 0;
    while i < |lines|
      invariant 0 <= i <= |lines|
      invariant forall j | 0 <= j < i :: !R.Selects(sys, port, lines[j])
    {
      var selected, v := ExamineLine(sys, port, lines[i]);
      if selected {
        R.ScanIsFirst(sys, port, lines, i);
        if v.Some? {
          return v, [];
        }
        return None, [R.LineParseFailed(lines[i])];
      }
      i := i + 1;
    }
    return None, [];
  }

  /** One pass of the loop body over a line: whether the line holds the
      port and offers a PID token, and the token's int value if it has one.
      On Linux this is the inner loop over the line's tokens. */
  method ExamineLine(sys: R.System, port: int, line: string) returns (selected: bool, v: Option<int>)
    ensures selected <==> R.Selects(sys, port, line)
    ensures selected ==> R.Verdict(sys, port, line) == (if v.Some? then R.Found(v.value) else R.Unparsable(line))
  {
    if !Text.Contains(line, Text.IntToString(port)) {
      return false, None;
    }
    var parts := Text.Tokens(line);
    if sys.Windows? && |parts| > 4 {
      return true, Text.ParseInt(parts[4]);
    } else if sys.Linux? {
      var k := 0;
      while k < |parts|
        invariant 0 <= k <= |parts|
        invariant forall j | 0 <= j < k :: !Text.Contains(parts[j], "pid=")
      {
        if Text.Contains(parts[k], "pid=") {
          R.FirstPidIs(parts, k);
          Text.ContainsChar(parts[k], "pid=", 3);
          return true, Text.ParseInt(R.AfterFirstEquals(parts[k]));
        }
        k := k + 1;
      }
      return false, None;
    } else if sys.Darwin? && |parts| > 1 {
      return true, Text.ParseInt(parts[1]);
    }
    return false, None;
  }

  /** `kill_process`. */
  method KillProcess(sys: R.System, pid: int, output: Call<R.KillOutput>)
    returns (ok: bool, logs: seq<R.LogEvent>)
    ensures R.Kill(R.KillCommand(sys, pid), ok, logs) == R.KillProcess(sys, pid, output)
    ensures ok <==> !sys.Other? && output.Returned? && output.value.returncode == 0
  {
    var cmd := R.KillCommand(sys, pid);
    if cmd.None? {
      return false, [R.UnsupportedOs(R.SystemName(sys))];
    }
    match output
    case Raised(e) =>
      return false, [R.Unexpected(e)];
    case Returned(res) =>
      if res.returncode != 0 {
        return false, [R.TerminateFailed(pid, None, Some(res.stderr))];
      }
      return true, [];
  }

  /** One turn of `release_all`'s loop. */
  method ReleasePort(w: R.World, arg: R.PortArg) returns (events: seq<R.Event>)
    ensures events == R.ReleaseOne(w, arg)
  {
    match arg {
      case NotInt(repr) =>
        events := [R.Logged(R.InvalidPort(repr))];
      case IntPort(port) =>
        var pid, logs := GetPidByPort(w.sys, port, w.lookupOutput(port));
        events := [R.LookedUp(port)] + R.LogAll(logs);
        if pid.None? {
          events := events + [R.Logged(R.NoProcess(port))];
        } else {
          var p := pid.value;
          var ok, killLogs := KillProcess(w.sys, p, w.killOutput(p));
          var last := if ok then R.Terminated(p, port) else R.TerminateFailed(p, Some(port), None);
          events := events + ([R.Logged(R.ProcessFound(port, p)), R.KillRequested(p)] + R.LogAll(killLogs) + [R.Logged(last)]);
        }
    }
  }

  /** `release_all`: the loop over the ports, producing the same events as
      the current version. */
  method ReleaseAll(pr: R.PortsRelease, w: R.World, ports: Option<seq<R.PortArg>>)
    returns (events: seq<R.Event>)
    ensures events == R.ReleaseAll(pr, w, ports)
    ensures R.Lookups(events) == R.IntPorts(if ports.None? then pr.defaultPorts else ports.value)
    ensures R.Kills(events) == R.FoundPids(w, if ports.None? then pr.defaultPorts else ports.value)
  {
    var ps := if ports.None? then pr.defaultPorts else ports.value;
    events := [];
    for i := 0 to |ps|
      invariant events == R.ReleaseEach(w, ps[..i])
    {
      var turn := ReleasePort(w, ps[i]);
      events := events + turn;
      R.ReleaseEachStep(w, ps, i);
    }
    assert ps[..|ps|] == ps;
    R.ReleaseAllPorts(pr, w, ports);
  }
}
