/**
  The hint the monitor prints when a command could not be started.

  The same rule appears at every place the monitor reports a failed start: when the
  program word begins with '.' or '/', the user named a file by path and the hint says the
  file does not exist, followed by a debug line; otherwise the word was meant to be found
  on the search path and the hint says it is not a basic command. The test reads the first
  byte of the word, which is the terminating NUL when the word is empty, so an empty word
  gets the "not a basic command" hint.

  Everywhere but the single-pipe producer the hint is printed by the process that called
  `execvp`, right after it returned: a child, or the monitor itself for the consumer of a
  single pipe. For the producer the parent prints it after waiting, whenever the
  producer exited with a non-zero code, so a producer that did start but exited with an
  error also gets it. `StartHint` is the corrected rule for the producer.
 */
module ExecErrors {
  import opened Wrappers

  datatype Hint = NotBasicCommand | NoSuchFile

  const NotBasicText: string := "exec: : Not a basic linux command i.e. not in /usr/bin \n\n"
  const NoSuchFileText: string := "exec: : No such file or directory\n"
  const DebugHintText: string := "Debug hint: incorrect filename, incorrect path etc.\n\n"

  /** The first byte of a C string: its terminating NUL when the string is empty. */
  function FirstByte(word: string): char
  {
    if |word| == 0 then '\0' else word[0]
  }

  /** The word names a file by a relative or absolute path. */
  predicate NamesPath(word: string)
  {
    |word| > 0 && (word[0] == '.' || word[0] == '/')
  }

  /** The hint for a program word that failed to start, decided by its first byte. */
  function Classify(word: string): (h: Hint)
    ensures h == NoSuchFile <==> NamesPath(word)
    ensures |word| == 0 ==> h == NotBasicCommand
  {
    if FirstByte(word) != '.' && FirstByte(word) != '/' then NotBasicCommand else NoSuchFile
  }

  /** Only the first character of a word decides its hint. */
  lemma ClassifyFirstCharOnly(w1: string, w2: string)
    requires |w1| > 0 && |w2| > 0 && w1[0] == w2[0]
    ensures Classify(w1) == Classify(w2)
  {
  }

  /** Qualifying any word with "./" or "/" turns its hint into the missing-file hint. */
  lemma QualifiedWordIsPath(word: string)
    ensures Classify("./" + word) == NoSuchFile
    ensures Classify("/" + word) == NoSuchFile
  {
    assert ("./" + word)[0] == '.';
    assert ("/" + word)[0] == '/';
  }

  /**
    The lines printed for a hint. The printed lines determine the hint: the debug line
    appears exactly for the missing-file hint, which is the only two-line hint.
   */
  function HintLines(h: Hint): (lines: seq<string>)
    ensures DebugHintText in lines <==> h == NoSuchFile
    ensures h == (if |lines| == 2 then NoSuchFile else NotBasicCommand)
  {
    match h
    case NotBasicCommand =>
      assert |NotBasicText| != |DebugHintText|;
      [NotBasicText]
    case NoSuchFile => [NoSuchFileText, DebugHintText]
  }

  /**
    The lines printed for a word that failed to start: the missing-file message and the
    debug line for a path, the not-basic-command message otherwise.
   */
  lemma PrintedHintForWord(word: string)
    ensures HintLines(Classify(word)) ==
      if NamesPath(word) then [NoSuchFileText, DebugHintText] else [NotBasicText]
  {
  }

  /** How a waited-for child ended: the exit code it returned, or the signal that killed it. */
  datatype WaitStatus = Exited(code: int) | Signaled(sig: int)

  /**
    The hint for the single-pipe producer, which the parent prints after waiting for it:
    only when the producer exited, and with a non-zero code; a producer killed by a signal
    gets none.
   */
  function ProducerHint(word: string, status: WaitStatus): (h: Option<Hint>)
    ensures h.Some? <==> status.Exited? && status.code != 0
    ensures h.Some? ==> h.value == Classify(word)
  {
    match status
    case Exited(code) => if code != 0 then Some(Classify(word)) else None
    case Signaled(_) => None
  }

  /** What became of the single-pipe producer: `execvp` failed, or the program ran. */
  datatype ProducerRun = StartFailed | Ran(status: WaitStatus)

  /**
    The status the parent sees: after a failed `execvp` the producer calls `exit(1)`, so
    exit code 1 is seen both for a failed start and for a program that ran and returned 1.
   */
  function ChildStatus(run: ProducerRun): (status: WaitStatus)
    ensures status == Exited(1) <==> run == StartFailed || run == Ran(Exited(1))
    ensures run.Ran? ==> status == run.status
  {
    match run
    case StartFailed => Exited(1)
    case Ran(s) => s
  }

  /**
    A producer that started and exited with code 1 (a `grep` that found nothing, say)
    looks to the parent exactly like one that failed to start, and gets the
    start-failure hint.
   */
  lemma RanProducerGetsStartHint(word: string)
    ensures ProducerHint(word, ChildStatus(Ran(Exited(1)))) == ProducerHint(word, ChildStatus(StartFailed))
    ensures ProducerHint(word, ChildStatus(Ran(Exited(1)))) == Some(Classify(word))
  {
  }

  /** The producer's hint corrected: printed exactly when `execvp` failed, as for every other command. */
  function StartHint(word: string, run: ProducerRun): (h: Option<Hint>)
    ensures h.Some? <==> run.StartFailed?
    ensures h.Some? ==> h.value == Classify(word)
  {
    if run.StartFailed? then Some(Classify(word)) else None
  }

  /**
    The corrected hint and the hint as written differ exactly for producers that ran and
    exited with a non-zero code.
   */
  lemma StartHintAgrees(word: string, run: ProducerRun)
    ensures StartHint(word, run) == ProducerHint(word, ChildStatus(run))
      <==> !(run.Ran? && run.status.Exited? && run.status.code != 0)
  {
  }
}
