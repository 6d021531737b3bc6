/**
  One reachability probe (`PingWorker`, Projeto_Ping.py lines 40-66): the
  worker strips its host, builds a one-shot `ping` command for the
  operating system, runs it and folds every outcome into "On" or "Off",
  then emits exactly one (host, status) result.

  The process itself is not modelled: the caller supplies `runner`, which
  maps the command to the outcome `subprocess.run` observed.
 */
module Probe {
  import opened Text

  const On: string := "On"
  const Off: string := "Off"

  /** The two status texts a worker can emit. */
  predicate IsStatus(s: string) {
    s == On || s == Off
  }

  /** What `subprocess.run(..., timeout=3, check=True)` can end in: the
      process exited with a code (a non-zero code raises
      `CalledProcessError`), the 3-second timeout expired
      (`TimeoutExpired`), or any other exception (the program could not be
      launched, permission denied, ...). */
  datatype ProcessOutcome = Exited(code: int) | TimedOut | LaunchFailed

  datatype PingWorker = PingWorker(host: string)

  /** One result signal: `signals.result.emit(host, status)`. */
  datatype Emission = Emission(host: string, status: string)

  /** `PingWorker(host)`: the worker keeps `host.strip()`; a host that is
      already stripped is kept as it is. */
  function NewWorker(host: string): (w: PingWorker)
    ensures w.host == Strip(host)
    ensures IsStripped(w.host)
    ensures IsStripped(host) ==> w.host == host
  {
    StripIdempotent(host);
    PingWorker(Strip(host))
  }

  function LowerAscii(c: char): char {
    if 'A' <= c <= 'Z' then (c as int + 32) as char else c
  }

  /** `s.lower()` on ASCII letters. Only ASCII letters are folded: no
      other character lower-cases to a single letter of "windows". */
  function LowerAsciiAll(s: string): string {
    seq(|s|, k requires 0 <= k < |s| => LowerAscii(s[k]))
  }

  /** `platform.system().lower() == "windows"`: the name is "windows" with
      each letter in either case. */
  function IsWindows(system: string): (windows: bool)
    ensures windows <==> (|system| == 7 &&
                          forall k :: 0 <= k < 7 ==> system[k] == "windows"[k] || system[k] == "WINDOWS"[k])
  {
    LowerAsciiAll(system) == "windows"
  }

  /** The echo-count flag: `-n` on Windows, `-c` elsewhere. */
  function CountFlag(system: string): (flag: string)
    ensures flag == "-n" || flag == "-c"
    ensures flag == "-n" <==> IsWindows(system)
  {
    if IsWindows(system) then "-n" else "-c"
  }

  /** `["ping", param, "1", host]`: one echo request to `host`. */
  function PingCommand(system: string, host: string): (argv: seq<string>)
    ensures |argv| == 4 && argv[0] == "ping" && argv[2] == "1"
    ensures argv[1] == CountFlag(system) && argv[3] == host
  {
    ["ping", CountFlag(system), "1", host]
  }

  /** The command names its host and its platform unambiguously: two
      commands are equal exactly when they target the same host with the
      same flag. */
  lemma PingCommandInjective(system1: string, host1: string, system2: string, host2: string)
    ensures PingCommand(system1, host1) == PingCommand(system2, host2)
        <==> host1 == host2 && (IsWindows(system1) <==> IsWindows(system2))
  {
    if PingCommand(system1, host1) == PingCommand(system2, host2) {
      assert PingCommand(system1, host1)[1] == PingCommand(system2, host2)[1];
      assert PingCommand(system1, host1)[3] == PingCommand(system2, host2)[3];
    }
  }

  lemma WindowsSpellings()
    ensures IsWindows("Windows") && IsWindows("WINDOWS") && IsWindows("windows")
    ensures !IsWindows("Linux") && !IsWindows("Darwin") && !IsWindows("Windows NT")
  {
    assert "Windows"[0] == 'W';
    assert "WINDOWS"[1] == 'I';
    assert "Linux"[0] == 'L';
    assert "Darwin"[0] == 'D';
  }

  /** The `try`/`except` of `run`: "On" exactly when the process exited
      with code 0 before the timeout; every other outcome is "Off". */
  function Classify(outcome: ProcessOutcome): (status: string)
    ensures IsStatus(status)
    ensures status == On <==> outcome == Exited(0)
    ensures status == Off <==> outcome != Exited(0)
  {
    match outcome
    case Exited(code) => if code == 0 then On else Off
    case TimedOut => Off
    case LaunchFailed => Off
  }

  /** `PingWorker.run`: exactly one emission, for the worker's own host,
      whose status is "On" exactly when the ping command for that host
      succeeded. */
  function Run(w: PingWorker, system: string, runner: seq<string> -> ProcessOutcome): (e: Emission)
    ensures e.host == w.host
    ensures IsStatus(e.status)
    ensures e.status == On <==> runner(PingCommand(system, w.host)) == Exited(0)
  {
    Emission(w.host, Classify(runner(PingCommand(system, w.host))))
  }

  /** One worker per host, in list order (the second loop of `start_ping`). */
  function Workers(hosts: seq<string>): (ws: seq<PingWorker>)
    ensures |ws| == |hosts|
    ensures forall i :: 0 <= i < |hosts| ==> ws[i] == NewWorker(hosts[i])
  {
    seq(|hosts|, i requires 0 <= i < |hosts| => NewWorker(hosts[i]))
  }

  /** Appending one host appends its worker. */
  lemma WorkersSnoc(hosts: seq<string>, i: nat)
    requires i < |hosts|
    ensures Workers(hosts[..i + 1]) == Workers(hosts[..i]) + [NewWorker(hosts[i])]
  {
  }

  /** The results the workers of a batch emit, one each, listed in worker
      order; the order of delivery is any permutation of this list. */
  function Emissions(ws: seq<PingWorker>, system: string, runner: seq<string> -> ProcessOutcome): (es: seq<Emission>)
    ensures |es| == |ws|
    ensures forall i :: 0 <= i < |ws| ==> es[i] == Run(ws[i], system, runner)
  {
    seq(|ws|, i requires 0 <= i < |ws| => Run(ws[i], system, runner))
  }
}
