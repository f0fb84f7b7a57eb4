/**
  Concrete command lines worked through the model: how they are segmented, and what
  `execvp` would read from the vectors the monitor builds for them.
 */
module Scenarios {
  import opened Wrappers
  import opened Tokens
  import opened Segments
  import opened Argv
  import opened Signals

  /** `monitor ls ! wc`: one pipe; the producer's vector has no null after "ls". */
  lemma SinglePipeUnterminated()
    ensures SplitAtFirstPipe(["ls", "!", "wc"]) == (["ls"], ["wc"])
    ensures ExecArgs(Args(["ls"])) == None
    ensures ExecArgs(TerminatedHalves(["ls", "!", "wc"]).outputBuf) == Some(["ls"])
  {
    var cmd: seq<string> := ["ls", "!", "wc"];
    assert cmd[0] != Pipe && cmd[1] == Pipe;
    assert FirstPipe(cmd) == 1 by {
      assert FirstPipe(cmd[1..]) == 0;
    }
    assert cmd[..1] == ["ls"] && cmd[2..] == ["wc"];
    assert PipeCount(cmd) == 1 by {
      assert multiset(cmd) == multiset{"ls", Pipe, "wc"};
    }
  }

  /** `monitor ls ! sort ! wc`: three segments, the last one without a null. */
  lemma ChainLastUnterminated()
    ensures Split(["ls", "!", "sort", "!", "wc"]) == [["ls"], ["sort"], ["wc"]]
    ensures ExecArgs(Args(["wc"])) == None
    ensures ExecArgs(Terminated(["wc"])) == Some(["wc"])
  {
    var c1: seq<string> := ["ls"];
    SplitSnocToken([], "ls");
    assert [] + ["ls"] == c1;
    assert Split(c1) == [["ls"]];
    var c2 := c1 + [Pipe];
    SplitSnocPipe(c1);
    assert Split(c2) == [["ls"], []];
    var c3 := c2 + ["sort"];
    SplitSnocToken(c2, "sort");
    assert [["ls"], []][..1] == [["ls"]] && [] + ["sort"] == ["sort"];
    assert Split(c3) == [["ls"], ["sort"]];
    var c4 := c3 + [Pipe];
    SplitSnocPipe(c3);
    assert Split(c4) == [["ls"], ["sort"], []];
    var c5 := c4 + ["wc"];
    SplitSnocToken(c4, "wc");
    assert [["ls"], ["sort"], []][..2] == [["ls"], ["sort"]] && [] + ["wc"] == ["wc"];
    assert Split(c5) == [["ls"], ["sort"], ["wc"]];
    assert c5 == ["ls", "!", "sort", "!", "wc"];
    ExecArgsTerminated(["wc"]);
  }

  /** A leading, doubled or trailing "!" yields empty segments, which are kept. */
  lemma EmptySegmentsKept()
    ensures Split(["!", "a", "!", "!", "b", "!"]) == [[], ["a"], [], ["b"], []]
  {
    var c1: seq<string> := [Pipe];
    SplitSnocPipe([]);
    assert [] + [Pipe] == c1;
    assert Split(c1) == [[], []];
    var c2 := c1 + ["a"];
    SplitSnocToken(c1, "a");
    var e: seq<string> := [];
    assert [e, e][..1] == [e] && e + ["a"] == ["a"];
    assert Split(c2) == [[], ["a"]];
    var c3 := c2 + [Pipe];
    SplitSnocPipe(c2);
    assert Split(c3) == [[], ["a"], []];
    var c4 := c3 + [Pipe];
    SplitSnocPipe(c3);
    assert Split(c4) == [[], ["a"], [], []];
    var c5 := c4 + ["b"];
    SplitSnocToken(c4, "b");
    assert [e, ["a"], e, e][..3] == [e, ["a"], e] && e + ["b"] == ["b"];
    assert Split(c5) == [[], ["a"], [], ["b"]];
    var c6 := c5 + [Pipe];
    SplitSnocPipe(c5);
    assert Split(c6) == [[], ["a"], [], ["b"], []];
    assert c6 == ["!", "a", "!", "!", "b", "!"];
  }

  /** Signal 34, the first real-time signal on Linux, has no name in the table. */
  lemma RealTimeSignalUnnamed()
    ensures SignalName(34) == None
    ensures SignalLabel(34) == UnknownLabel
    ensures SignalName(9) == Some("SIGKILL") && SignalName(15) == Some("SIGTERM")
  {
  }
}
