/**
 * Decoding of the raw status that `os.waitpid` reports for the direct child
 * (`wait_for_child`), against the conventional Unix wait-status layout:
 * exit code in bits 8-15 for a normal exit; terminating signal in bits 0-6
 * (and a core-dump flag in bit 7) for a child killed by a signal.
 */
module WaitStatus {

  /** `2 ** 8`: the exit code sits just above the low byte. */
  const ExitShift: nat := 256

  /** The decode the monitor applies: the raw status floor-divided by 256.
      Python's `//` and Dafny's `/` agree for a positive divisor. */
  function ExitStatus(indicator: int): (code: int)
    ensures 0 <= indicator < 65536 ==> 0 <= code < 256 && code == ExitCode(indicator)
  {
    indicator / ExitShift
  }

  // ---------------------------------------------------------------------------
  // The conventional layout, as the <sys/wait.h> macros read it

  /** Raw status of a child that called `exit(code)`. */
  function Exited(code: nat): nat
    requires code < 256
  {
    code * 256
  }

  /** Raw status of a child killed by signal `sig` (127 is reserved for a
      stopped child). */
  function Signaled(sig: nat, coreDumped: bool): nat
    requires 1 <= sig < 127
  {
    sig + (if coreDumped then 128 else 0)
  }

  /** WTERMSIG: the low seven bits. */
  function TermSig(st: nat): nat
  {
    st % 128
  }

  /** WIFEXITED */
  predicate IfExited(st: nat)
  {
    TermSig(st) == 0
  }

  /** WIFSIGNALED */
  predicate IfSignaled(st: nat)
  {
    TermSig(st) != 0 && TermSig(st) != 127
  }

  /** WEXITSTATUS: bits 8-15. */
  function ExitCode(st: nat): nat
  {
    (st / 256) % 256
  }

  /** A normal exit reads back as such, with its code. */
  lemma ExitedRoundTrip(code: nat)
    requires code < 256
    ensures IfExited(Exited(code)) && !IfSignaled(Exited(code))
    ensures ExitCode(Exited(code)) == code
  {
  }

  /** A signal death reads back as such, with its signal. */
  lemma SignaledRoundTrip(sig: nat, coreDumped: bool)
    requires 1 <= sig < 127
    ensures IfSignaled(Signaled(sig, coreDumped)) && !IfExited(Signaled(sig, coreDumped))
    ensures TermSig(Signaled(sig, coreDumped)) == sig
  {
  }

  // ---------------------------------------------------------------------------
  // What the monitor's decode yields

  /** Decoding `c * 256 + s` with a low byte `s` gives `c`. */
  lemma DecodeHighByte(c: int, s: int)
    requires 0 <= s < 256
    ensures ExitStatus(c * 256 + s) == c
  {
  }

  /** On every status a 16-bit wait status can hold, the decode is WEXITSTATUS,
      so it is a byte. */
  lemma {:induction false} DecodeIsExitCode(st: nat)
    requires st < 65536
    ensures ExitStatus(st) == ExitCode(st)
    ensures 0 <= ExitStatus(st) < 256
  {
    var c, s := st / 256, st % 256;
    assert st == c * 256 + s;
    DecodeHighByte(c, s);
  }

  /** A normal exit decodes to its exit code. */
  lemma DecodeExited(code: nat)
    requires code < 256
    ensures ExitStatus(Exited(code)) == code
  {
    DecodeHighByte(code, 0);
  }

  /** A child killed by a signal decodes to 0: the signal is lost. */
  lemma DecodeSignaled(sig: nat, coreDumped: bool)
    requires 1 <= sig < 127
    ensures ExitStatus(Signaled(sig, coreDumped)) == 0
  {
    DecodeHighByte(0, Signaled(sig, coreDumped));
  }

  /** Among 16-bit statuses, the decode is 0 exactly for those below 256:
      a zero exit code or a death by signal. */
  lemma DecodeZeroIff(st: nat)
    requires st < 65536
    ensures ExitStatus(st) == 0 <==> st < 256
  {
    DecodeIsExitCode(st);
  }
}
