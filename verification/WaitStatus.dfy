/** Decoding the status word that `waitpid` fills in. */
module WaitStatus {
  import opened Base

  /** `status & 0x7f`, `status & 0xff` and `(status >> 8) & 0xff` on a signed word. */
  function Low7(status: i32): int { status % 0x80 }
  function Low8(status: i32): int { status % 0x100 }
  function High8(status: i32): int { (status / 0x100) % 0x100 }

  predicate IfExited(status: i32) { Low7(status) == 0 }
  function ExitStatus(status: i32): int { High8(status) }
  predicate IfSignaled(status: i32) { Low7(status) != 0 && Low7(status) != 0x7f }
  function TermSig(status: i32): int { Low7(status) }
  predicate IfStopped(status: i32) { Low8(status) == 0x7f }
  function StopSig(status: i32): int { High8(status) }
  predicate IfContinued(status: i32) { status == 0xffff }

  /** What happened to the child. */
  datatype Event =
    | Exit(code: byte)
    | Killed(sig: byte, core: bool)
    | Stop(sig: byte)
    | Continue
  {
    predicate Valid() { Killed? ==> 1 <= sig < 0x7f }
  }

  /** The word the kernel reports for it. */
  function Encode(e: Event): (status: i32)
    requires e.Valid()
  {
    match e
    case Exit(code) => 0x100 * code
    case Killed(sig, core) => sig + if core then 0x80 else 0
    case Stop(sig) => 0x100 * sig + 0x7f
    case Continue => 0xffff
  }

  /** The four predicates are mutually exclusive and exhaustive on what the kernel reports,
      and the accessors recover the code or signal. */
  lemma Decodes(e: Event)
    requires e.Valid()
    ensures IfExited(Encode(e)) <==> e.Exit?
    ensures IfSignaled(Encode(e)) <==> e.Killed?
    ensures IfStopped(Encode(e)) <==> e.Stop?
    ensures IfContinued(Encode(e)) <==> e.Continue?
    ensures e.Exit? ==> ExitStatus(Encode(e)) == e.code
    ensures e.Killed? ==> TermSig(Encode(e)) == e.sig
    ensures e.Stop? ==> StopSig(Encode(e)) == e.sig
  {
    match e
    case Exit(code) => assert 0x100 * code == 2 * code * 0x80;
    case Killed(_, _) =>
    case Stop(sig) =>
    case Continue =>
  }
}
