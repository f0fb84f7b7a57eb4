/**
  Naming of signal codes, as the monitor prints them for a child killed by a signal.

  `sigcodeConv` is a `switch` with one `return` per code 1..31. Its fallback
  `return "Unknown signal code"` sits inside the last case, after that case's own
  `return`, so it can never run: for any code outside 1..31 control falls off the end of
  the function and no value is defined. `SignalName` models exactly that with `None`;
  `SignalLabel` is the corrected, total version.
 */
module Signals {
  import opened Wrappers

  /** Smallest and largest code the table names. */
  const FirstCode: int := 1
  const LastCode: int := 31

  /** The label the unreachable fallback was meant to produce. */
  const UnknownLabel: string := "Unknown signal code"

  /** The name `sigcodeConv` returns for `sig`; `None` where it returns no value. */
  function SignalName(sig: int): (name: Option<string>)
    ensures name.Some? <==> FirstCode <= sig <= LastCode
    ensures name.Some? ==> |name.value| >= 6 && name.value[..3] == "SIG"
  {
    match sig
    case 1 => Some("SIGHUP")
    case 2 => Some("SIGINT")
    case 3 => Some("SIGQUIT")
    case 4 => Some("SIGILL")
    case 5 => Some("SIGTRAP")
    case 6 => Some("SIGABRT or SIGIOT")
    case 7 => Some("SIGBUS")
    case 8 => Some("SIGFPE")
    case 9 => Some("SIGKILL")
    case 10 => Some("SIGUSR1")
    case 11 => Some("SIGSEGV")
    case 12 => Some("SIGUSR2")
    case 13 => Some("SIGPIPE")
    case 14 => Some("SIGALRM")
    case 15 => Some("SIGTERM")
    case 16 => Some("SIGSTKFLT")
    case 17 => Some("SIGCHLD")
    case 18 => Some("SIGCONT")
    case 19 => Some("SIGSTOP")
    case 20 => Some("SIGTSTP")
    case 21 => Some("SIGTTIN")
    case 22 => Some("SIGTTOU")
    case 23 => Some("SIGURG")
    case 24 => Some("SIGXCPU")
    case 25 => Some("SIGXFSZ")
    case 26 => Some("SIGVTALRM")
    case 27 => Some("SIGPROF")
    case 28 => Some("SIGWINCH  ")
    case 29 => Some("SIGIO or SIGPOLL")
    case 30 => Some("SIGPWR")
    case 31 => Some("SIGSYS or SIGUNUSED")
    case _ => None
  }

  /** The code whose name is `name`, searching codes `from`..31 upwards. */
  function CodeFrom(name: string, from: int): (sig: Option<int>)
    requires FirstCode <= from
    ensures sig.Some? ==> from <= sig.value <= LastCode && SignalName(sig.value) == Some(name)
    decreases LastCode - from
  {
    if from > LastCode then None
    else if SignalName(from) == Some(name) then Some(from)
    else CodeFrom(name, from + 1)
  }

  /** The code a printed name stands for, if any. */
  function SignalCode(name: string): (sig: Option<int>)
    ensures sig.Some? ==> SignalName(sig.value) == Some(name)
  {
    CodeFrom(name, FirstCode)
  }

  /** Distinct codes have distinct names, so a printed name identifies its code. */
  lemma SignalNameInjective(a: int, b: int)
    requires FirstCode <= a <= LastCode && FirstCode <= b <= LastCode
    requires SignalName(a) == SignalName(b)
    ensures a == b
  {
  }

  /** Searching from any code at or below `sig` finds `sig` by its name. */
  lemma {:induction false} CodeFromFinds(from: int, sig: int)
    requires FirstCode <= from <= sig <= LastCode
    ensures CodeFrom(SignalName(sig).value, from) == Some(sig)
    decreases sig - from
  {
    if from < sig {
      if SignalName(from) == SignalName(sig) {
        SignalNameInjective(from, sig);
      }
      CodeFromFinds(from + 1, sig);
    }
  }

  /** Every named code is recovered from its printed name. */
  lemma SignalCodeRoundTrip(sig: int)
    requires FirstCode <= sig <= LastCode
    ensures SignalName(sig).Some?
    ensures SignalCode(SignalName(sig).value) == Some(sig)
  {
    CodeFromFinds(FirstCode, sig);
  }

  /**
    `sigcodeConv` corrected: the table's name for codes 1..31 and the fallback
    label for every other code. The fallback is not the name of any code, so a caller can
    tell the two apart.
   */
  function SignalLabel(sig: int): (text: string)
    ensures FirstCode <= sig <= LastCode ==> SignalName(sig) == Some(text)
    ensures !(FirstCode <= sig <= LastCode) ==> text == UnknownLabel
    ensures SignalCode(text).Some? <==> FirstCode <= sig <= LastCode
  {
    match SignalName(sig)
    case Some(name) =>
      SignalCodeRoundTrip(sig);
      name
    case None =>
      UnknownLabel
  }
}
