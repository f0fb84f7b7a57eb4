/**
  The monitor's entry points: building the command vector from the program arguments and
  choosing how to run it.

  `main` copies the arguments after the program name into the global `command` array and
  hands them to `do_cmd`. `do_cmd` scans for a "!" token: without one, the whole vector is
  executed directly; with one, `commandWithPipe` counts the pipes and either splits the
  vector into two halves (exactly one pipe) or into a table of segments (two or more).
  The plan records every argument vector the monitor passes to `execvp`, in stage order.
 */
module Monitor {
  import opened Wrappers
  import opened Tokens
  import opened Segments
  import opened Argv

  /** What `do_cmd` decides to run, with the argument vectors it builds for `execvp`. */
  datatype Plan =
    | Direct(argv: seq<Slot>)
    | OnePipe(halves: PipeHalves)
    | Chain(table: seq<seq<Slot>>)

  /** The argument vectors of a plan, one per stage, in pipeline order. */
  function Vectors(plan: Plan): seq<seq<Slot>>
  {
    match plan
    case Direct(argv) => [argv]
    case OnePipe(h) => [h.outputBuf, h.inputBuf]
    case Chain(table) => table
  }

  /** The tokens written into a vector before its first null (all of them when it has none). */
  function WrittenTokens(buf: seq<Slot>): (tokens: seq<string>)
    ensures |tokens| <= |buf|
  {
    if |buf| == 0 then []
    else match buf[0]
      case Null => []
      case Arg(t) => [t] + WrittenTokens(buf[1..])
  }

  /** Whenever `execvp`'s read of a vector is defined, it reads exactly the written tokens. */
  lemma {:induction false} WrittenTokensIsRead(buf: seq<Slot>)
    requires ExecArgs(buf).Some?
    ensures WrittenTokens(buf) == ExecArgs(buf).value
  {
    if buf[0] != Null {
      WrittenTokensIsRead(buf[1..]);
    }
  }

  /** Tokens read back from an unterminated vector are the tokens written into it. */
  lemma {:induction false} TokensOfArgs(tokens: seq<string>, tail: seq<Slot>)
    requires forall k :: 0 <= k < |tail| ==> tail[k] == Null
    ensures WrittenTokens(Args(tokens) + tail) == tokens
  {
    if |tokens| > 0 {
      assert (Args(tokens) + tail)[1..] == Args(tokens[1..]) + tail;
      TokensOfArgs(tokens[1..], tail);
      assert [tokens[0]] + tokens[1..] == tokens;
    } else {
      assert Args(tokens) + tail == tail;
    }
  }

  /**
    The global `command` array after `main` has filled it: the tokens, then the null
    pointers the zero-initialised global holds in its remaining cells.
   */
  function CommandArray(command: seq<string>): (cells: seq<Slot>)
    requires |command| <= MaxArgs
    ensures |cells| == MaxArgs
    ensures WrittenTokens(cells) == command
    ensures ExecArgs(cells) == if |command| < MaxArgs then Some(command) else None
  {
    var cells := Args(command) + seq(MaxArgs - |command|, _ => Null);
    TokensOfArgs(command, seq(MaxArgs - |command|, _ => Null));
    if |command| < MaxArgs then
      assert cells[|command|] == Null;
      WrittenTokensIsRead(cells);
      cells
    else
      assert cells == Args(command);
      cells
  }

  /** With 1000 arguments the global `command` array holds no null, so `execvp` reads past it. */
  lemma FullCommandUnterminated(command: seq<string>)
    requires |command| == MaxArgs
    ensures ExecArgs(CommandArray(command)) == None
    ensures WrittenTokens(CommandArray(command)) == command
  {
  }

  /**
    The `command` array corrected: one cell more than the largest argument count, so a
    null follows the tokens even when all 1000 cells of the original are used.
   */
  function TerminatedCommandArray(command: seq<string>): (cells: seq<Slot>)
    requires |command| <= MaxArgs
    ensures |cells| == MaxArgs + 1
    ensures ExecArgs(cells) == Some(command)
  {
    var cells := Args(command) + seq(MaxArgs + 1 - |command|, _ => Null);
    TokensOfArgs(command, seq(MaxArgs + 1 - |command|, _ => Null));
    assert cells[|command|] == Null;
    WrittenTokensIsRead(cells);
    cells
  }

  /**
    `main`: with no argument besides the program name the monitor exits at once;
    otherwise the command vector is the argument list without the program name.
   */
  method StartMonitor(argv: seq<string>) returns (exits: bool, command: seq<string>)
    requires |argv| >= 1
    requires |argv| - 1 <= MaxArgs
    ensures exits <==> |argv| == 1
    ensures exits ==> command == []
    ensures !exits ==> [argv[0]] + command == argv
    ensures |command| <= MaxArgs
  {
    if |argv| == 1 {
      return true, [];
    }
    var argnum := |argv| - 1;
    command := [];
    var i := 0;
    while i < argnum
      invariant i <= argnum
      invariant command == argv[1..i + 1]
    {
      command := command + [argv[i + 1]];
      i := i + 1;
    }
    assert [argv[0]] + argv[1..] == argv;
    exits := false;
  }

  /**
    `do_cmd`: without a "!" the whole vector runs directly; otherwise `commandWithPipe`
    takes over. Whatever the path, there is one argument vector per segment, and the
    tokens written into each are exactly that segment.
   */
  method DoCmd(command: seq<string>) returns (plan: Plan)
    requires 1 <= |command| <= MaxArgs
    requires PipeCount(command) >= 2 ==> FitsTable(Split(command))
    ensures plan.Direct? <==> PipeCount(command) == 0
    ensures plan.OnePipe? <==> PipeCount(command) == 1
    ensures plan.Chain? <==> PipeCount(command) >= 2
    ensures |Vectors(plan)| == |Split(command)|
    ensures forall r :: 0 <= r < |Vectors(plan)| ==> WrittenTokens(Vectors(plan)[r]) == Split(command)[r]
    ensures plan.Direct? ==> ExecArgs(plan.argv) == if |command| < MaxArgs then Some(command) else None
    ensures plan.OnePipe? ==> ExecArgs(plan.halves.outputBuf) == None && ExecArgs(plan.halves.inputBuf) == None
    ensures plan.Chain? ==> ExecArgs(Last(plan.table)) == None
    ensures plan.Chain? ==> forall r :: 0 <= r < |plan.table| - 1 ==> ExecArgs(plan.table[r]) == Some(Split(command)[r])
  {
    var withPipe, _ := ScanForPipe(command);
    if withPipe {
      plan := CommandWithPipe(command);
    } else {
      var argv := CommandArray(command);
      plan := Direct(argv);
      PipeFreeIsOneSegment(command);
      assert Vectors(plan) == [argv] && WrittenTokens(argv) == command;
    }
  }

  /**
    `commandWithPipe`: count the pipes; with exactly one, cut the vector into two halves,
    with more, into the segment table. Whether `execvp` can read the vectors is stated by
    the builders: the single-pipe halves and the last table row carry no terminating null.
   */
  method CommandWithPipe(command: seq<string>) returns (plan: Plan)
    requires PipeCount(command) >= 1
    requires PipeCount(command) >= 2 ==> FitsTable(Split(command))
    ensures plan.OnePipe? <==> PipeCount(command) == 1
    ensures plan.Chain? <==> PipeCount(command) >= 2
    ensures |Vectors(plan)| == |Split(command)|
    ensures forall r :: 0 <= r < |Vectors(plan)| ==> WrittenTokens(Vectors(plan)[r]) == Split(command)[r]
    ensures plan.OnePipe? ==> ExecArgs(plan.halves.outputBuf) == None && ExecArgs(plan.halves.inputBuf) == None
    ensures plan.Chain? ==> ExecArgs(Last(plan.table)) == None
    ensures plan.Chain? ==> forall r :: 0 <= r < |plan.table| - 1 ==> ExecArgs(plan.table[r]) == Some(Split(command)[r])
  {
    var pipnum := CountPipes(command);
    if pipnum == 1 {
      var halves := FillPipeHalves(command);
      plan := OnePipe(halves);
      OnePipeStages(command, halves);
      assert Vectors(plan) == [halves.outputBuf, halves.inputBuf];
    } else {
      var table := FillTable(command);
      plan := Chain(table);
      ChainStages(command, table);
      assert Vectors(plan) == table;
    }
  }

  /** The two single-pipe buffers hold the two segments. */
  lemma OnePipeStages(command: seq<string>, halves: PipeHalves)
    requires PipeCount(command) == 1
    requires halves.outputBuf == Args(SplitAtFirstPipe(command).0)
    requires halves.inputBuf == Args(SplitAtFirstPipe(command).1)
    ensures |Split(command)| == 2
    ensures WrittenTokens(halves.outputBuf) == Split(command)[0]
    ensures WrittenTokens(halves.inputBuf) == Split(command)[1]
  {
    OnePipeHalvesAreSegments(command);
    var l := SplitAtFirstPipe(command).0;
    var r := SplitAtFirstPipe(command).1;
    TokensOfArgs(l, []);
    TokensOfArgs(r, []);
    assert Args(l) + [] == Args(l) && Args(r) + [] == Args(r);
  }

  /** The rows of the segment table hold the segments, in order. */
  lemma ChainStages(command: seq<string>, table: seq<seq<Slot>>)
    requires |table| == |Split(command)|
    requires forall r :: 0 <= r < |table| - 1 ==> table[r] == Terminated(Split(command)[r])
    requires Last(table) == Args(Last(Split(command)))
    ensures forall r :: 0 <= r < |table| ==> WrittenTokens(table[r]) == Split(command)[r]
  {
    var segs := Split(command);
    forall r | 0 <= r < |table|
      ensures WrittenTokens(table[r]) == segs[r]
    {
      if r < |table| - 1 {
        TokensOfArgs(segs[r], [Null]);
      } else {
        TokensOfArgs(segs[r], []);
        assert table[r] == Args(segs[r]) + [];
      }
    }
  }

  /**
    The plan corrected: the same choice of plan, but every argument vector ends in a null,
    so `execvp` reads exactly the segment's tokens from each.
   */
  function IntendedPlan(command: seq<string>): (plan: Plan)
    requires 1 <= |command| <= MaxArgs
    ensures plan.Direct? <==> PipeCount(command) == 0
    ensures plan.OnePipe? <==> PipeCount(command) == 1
    ensures plan.Chain? <==> PipeCount(command) >= 2
    ensures |Vectors(plan)| == |Split(command)|
    ensures forall r :: 0 <= r < |Vectors(plan)| ==> ExecArgs(Vectors(plan)[r]) == Some(Split(command)[r])
  {
    var n := PipeCount(command);
    if n == 0 then
      PipeFreeIsOneSegment(command);
      Direct(TerminatedCommandArray(command))
    else if n == 1 then
      IntendedHalvesRead(command);
      OnePipe(TerminatedHalves(command))
    else
      Chain(TerminatedTable(command))
  }

  /** The terminated halves read as the two segments. */
  lemma IntendedHalvesRead(command: seq<string>)
    requires PipeCount(command) == 1
    ensures |Split(command)| == 2
    ensures ExecArgs(TerminatedHalves(command).outputBuf) == Some(Split(command)[0])
    ensures ExecArgs(TerminatedHalves(command).inputBuf) == Some(Split(command)[1])
  {
    OnePipeHalvesAreSegments(command);
  }

  /** The intended plan and the plan `do_cmd` builds write the same tokens into each vector. */
  lemma IntendedStagesAreSegments(command: seq<string>)
    requires 1 <= |command| <= MaxArgs
    ensures forall r :: 0 <= r < |Vectors(IntendedPlan(command))| ==>
      WrittenTokens(Vectors(IntendedPlan(command))[r]) == Split(command)[r]
  {
    var vs := Vectors(IntendedPlan(command));
    forall r | 0 <= r < |vs|
      ensures WrittenTokens(vs[r]) == Split(command)[r]
    {
      assert ExecArgs(vs[r]) == Some(Split(command)[r]);
      WrittenTokensIsRead(vs[r]);
    }
  }
}
