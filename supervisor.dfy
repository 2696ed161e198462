/**
 * The supervising process (`main`): checks its own argument vector, launches
 * the command it names, and after the whole process tree has finished reports
 * the peak and turns the child's wait status into its own exit status.
 */
module Supervisor {
  import opened Text
  import opened Wrappers
  import Launch
  import WaitStatus
  import Monitor
  import PsMemory

  /** How `main` ends once the command has run. */
  datatype Termination =
    | SysExit(code: int)  // `sys.exit(code)`
    | Return              // falls off the end: exit status 0

  datatype MainOutcome =
    | Usage  // usage text printed, exit status 1, nothing launched
    | Supervised(command: Launch.Command, reportedPeakMb: real, termination: Termination)

  /** The exit status the supervisor's own process ends with. */
  function ProcessExitCode(o: MainOutcome): int
  {
    match o
    case Usage => 1
    case Supervised(_, _, SysExit(code)) => code
    case Supervised(_, _, Return) => 0
  }

  /** `main` for the script's argument vector `argv`, the raw wait status the
      child is reaped with, and the peak the sampler holds when it is read. */
  function Main(argv: seq<String>, indicator: int, peakMb: real): (r: MainOutcome)
    ensures r.Usage? <==> |argv| < 2
    ensures r.Supervised? ==>
      r.command.executable == argv[1] && r.command.argv == argv[1..] && r.reportedPeakMb == peakMb
    ensures r.Supervised? ==> (r.termination.Return? <==> WaitStatus.ExitStatus(indicator) == 0)
    ensures ProcessExitCode(r) == if |argv| < 2 then 1 else WaitStatus.ExitStatus(indicator)
  {
    if |argv| < 2 then Usage
    else
      var launched := Launch.ExecutableAndArgs(None, None, argv);
      var status := WaitStatus.ExitStatus(indicator);
      Supervised(launched.value, peakMb, if status != 0 then SysExit(status) else Return)
  }

  /** A child that exits with code `c` makes the supervisor exit with `c`. */
  lemma ExitCodePropagated(argv: seq<String>, c: nat, peakMb: real)
    requires |argv| >= 2 && c < 256
    ensures ProcessExitCode(Main(argv, WaitStatus.Exited(c), peakMb)) == c
    ensures Main(argv, WaitStatus.Exited(c), peakMb).termination.Return? <==> c == 0
  {
    WaitStatus.DecodeExited(c);
  }

  /** A child killed by a signal makes the supervisor return normally, with
      exit status 0. */
  lemma SignaledChildExitsZero(argv: seq<String>, sig: nat, coreDumped: bool, peakMb: real)
    requires |argv| >= 2 && 1 <= sig < 127
    ensures Main(argv, WaitStatus.Signaled(sig, coreDumped), peakMb).termination == Return
    ensures ProcessExitCode(Main(argv, WaitStatus.Signaled(sig, coreDumped), peakMb)) == 0
  {
    WaitStatus.DecodeSignaled(sig, coreDumped);
  }

  /** On every 16-bit wait status the supervisor's exit status is the
      child's WEXITSTATUS byte. */
  lemma ExitCodeIsWaitExitCode(argv: seq<String>, st: nat, peakMb: real)
    requires |argv| >= 2 && st < 65536
    ensures ProcessExitCode(Main(argv, st, peakMb)) == WaitStatus.ExitCode(st)
    ensures 0 <= ProcessExitCode(Main(argv, st, peakMb)) < 256
  {
    WaitStatus.DecodeIsExitCode(st);
  }

  /** When the peak read is the one the sampler kept over the tables of its
      ticks, the reported value is 0 or the total of a table it read, and is
      at least every total it read. */
  lemma ReportedPeakIsSampled(argv: seq<String>, indicator: int, tables: seq<String>)
    requires |argv| >= 2
    ensures var p := Main(argv, indicator, Monitor.PeakOf(Monitor.SamplesTaken(tables))).reportedPeakMb;
      && (p == 0.0 || exists k :: 0 <= k < |Monitor.SamplesTaken(tables)| && PsMemory.UsageMb(tables[k]) == Ok(p))
      && forall k :: 0 <= k < |Monitor.SamplesTaken(tables)| && PsMemory.UsageMb(tables[k]).Ok? ==>
           PsMemory.UsageMb(tables[k]).value <= p
  {
    Monitor.PeakIsSampledTotal(tables);
  }
}
