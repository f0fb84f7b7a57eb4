/**
  The command-line token vector of the process monitor and the logical pipe token "!".

  A command is the sequence of argument strings the monitor was started with (program
  name dropped). The token "!" stands for a shell pipe; every other token belongs to a
  command of the pipeline.
 */
module Tokens {

  /** The logical pipe token: a whole argument equal to "!". */
  const Pipe: string := "!"

  /** Number of tokens of `cmd` exactly equal to the pipe token: the multiplicity of "!". */
  function PipeCount(cmd: seq<string>): (n: nat)
    ensures n <= |cmd|
    ensures n == 0 <==> Pipe !in cmd
  {
    multiset(cmd)[Pipe]
  }

  /** Appending one token adds one to the count exactly when the token is "!". */
  lemma PipeCountSnoc(init: seq<string>, t: string)
    ensures PipeCount(init + [t]) == PipeCount(init) + (if t == Pipe then 1 else 0)
  {
    assert multiset(init + [t]) == multiset(init) + multiset{t};
  }

  /**
    The counting loop of `commandWithPipe`: one pass over the vector, adding one for
    every token that compares equal to "!".
   */
  method CountPipes(command: seq<string>) returns (pipnum: nat)
    ensures pipnum == PipeCount(command)
  {
    pipnum := 0;
    var j := 0;
    while j < |command|
      invariant j <= |command|
      invariant pipnum == PipeCount(command[..j])
    {
      assert command[..j + 1] == command[..j] + [command[j]];
      PipeCountSnoc(command[..j], command[j]);
      if command[j] == Pipe {
        pipnum := pipnum + 1;
      }
      j := j + 1;
    }
    assert command[..j] == command;
  }

  /**
    Position of the first pipe token, or |cmd| when there is none: the value the loop
    variable holds when the scanning loop breaks or runs out.
   */
  function FirstPipe(cmd: seq<string>): (j: nat)
    ensures j <= |cmd|
    ensures j < |cmd| ==> cmd[j] == Pipe
    ensures Pipe !in cmd[..j]
    ensures j == |cmd| <==> Pipe !in cmd
  {
    if |cmd| == 0 then 0
    else if cmd[0] == Pipe then 0
    else
      var rest := FirstPipe(cmd[1..]);
      assert cmd[..rest + 1] == [cmd[0]] + cmd[1..][..rest];
      rest + 1
  }

  /**
    The dispatch scan of `do_cmd`: walk the vector and stop at the first "!". It reports
    whether the pipe handler is entered and where the scan stopped.
   */
  method ScanForPipe(command: seq<string>) returns (withPipe: bool, j: nat)
    ensures withPipe <==> PipeCount(command) >= 1
    ensures withPipe ==> j < |command| && command[j] == Pipe && Pipe !in command[..j]
    ensures !withPipe ==> j == |command|
    ensures j == FirstPipe(command)
  {
    j := 0;
    while j < |command|
      invariant j <= |command|
      invariant Pipe !in command[..j]
    {
      if command[j] == Pipe {
        return true, j;
      }
      assert command[..j + 1] == command[..j] + [command[j]];
      j := j + 1;
    }
    assert command[..j] == command;
    withPipe := false;
  }
}
