/**
  Argument vectors as the monitor hands them to `execvp`.

  A C argument vector is an array of string pointers that the callee reads up to the first
  null pointer. A buffer is modelled by the cells that have been written, in index order:
  `Arg(s)` for a string, `Null` for a null pointer. Cells past the written prefix are
  uninitialised, so a read that runs off the written prefix before meeting a `Null` has no
  defined result.
 */
module Argv {
  import opened Wrappers
  import opened Tokens
  import opened Segments

  datatype Slot = Arg(token: string) | Null

  /** Capacity of the global `command` array. */
  const MaxArgs: nat := 1000
  /** Rows of the multi-pipe table: at most this many segments. */
  const TableRows: nat := 100
  /** Cells per row of the multi-pipe table. */
  const TableCols: nat := 100

  /** The cells holding `tokens`, one per token, with no terminator. */
  function Args(tokens: seq<string>): (buf: seq<Slot>)
    ensures |buf| == |tokens|
    ensures Null !in buf
  {
    seq(|tokens|, k requires 0 <= k < |tokens| => Arg(tokens[k]))
  }

  /** A well-formed argument vector for `tokens`: the tokens followed by a null. */
  function Terminated(tokens: seq<string>): seq<Slot>
  {
    Args(tokens) + [Null]
  }

  /**
    The arguments `execvp` reads from `buf`: every cell before the first `Null`. `None` when
    no `Null` lies within the written cells, so the read runs into uninitialised memory.
   */
  function ExecArgs(buf: seq<Slot>): (r: Option<seq<string>>)
    ensures r.Some? <==> Null in buf
    ensures r.Some? ==> |r.value| < |buf| && buf[|r.value|] == Null
  {
    if |buf| == 0 then None
    else match buf[0]
      case Null => Some([])
      case Arg(t) =>
        match ExecArgs(buf[1..])
        case None => None
        case Some(rest) => Some([t] + rest)
  }

  /** The arguments read are the cells before the first null, in order. */
  lemma {:induction false} ExecArgsReadsPrefix(buf: seq<Slot>)
    requires ExecArgs(buf).Some?
    ensures forall k :: 0 <= k < |ExecArgs(buf).value| ==> buf[k] == Arg(ExecArgs(buf).value[k])
  {
    if buf[0] != Null {
      ExecArgsReadsPrefix(buf[1..]);
    }
  }

  /** Reading a terminated vector gives back exactly its tokens. */
  lemma {:induction false} ExecArgsTerminated(tokens: seq<string>)
    ensures ExecArgs(Terminated(tokens)) == Some(tokens)
  {
    var buf := Terminated(tokens);
    if |tokens| > 0 {
      assert buf[0] == Arg(tokens[0]);
      assert buf[1..] == Terminated(tokens[1..]);
      ExecArgsTerminated(tokens[1..]);
      assert [tokens[0]] + tokens[1..] == tokens;
    }
  }

  /** Reading an unterminated vector runs past its written cells. */
  lemma ExecArgsUnterminated(tokens: seq<string>)
    ensures ExecArgs(Args(tokens)) == None
  {
  }

  /** The argument vectors `commandWithPipe` builds when the command holds exactly one "!". */
  datatype PipeHalves = PipeHalves(outputBuf: seq<Slot>, inputBuf: seq<Slot>)

  /**
    The single-pipe buffers: `outputBuf` receives the tokens before the first "!",
    `inputBuf` the tokens after it, each from index 0 on. Neither gets a terminating null,
    so `execvp` on either buffer reads past the written cells.
   */
  method FillPipeHalves(command: seq<string>) returns (bufs: PipeHalves)
    requires PipeCount(command) == 1
    ensures bufs.outputBuf == Args(SplitAtFirstPipe(command).0)
    ensures bufs.inputBuf == Args(SplitAtFirstPipe(command).1)
    ensures |bufs.outputBuf| + 1 + |bufs.inputBuf| == |command|
    ensures Null !in bufs.outputBuf && Null !in bufs.inputBuf
  {
    var _, j := ScanForPipe(command);
    var outputBuf := CopyCells(command, 0, j);
    var inputBuf := CopyCells(command, j + 1, |command| - 1 - j);
    assert command[0..j] == SplitAtFirstPipe(command).0;
    assert command[j + 1..|command|] == SplitAtFirstPipe(command).1;
    bufs := PipeHalves(outputBuf, inputBuf);
  }

  /** A copy loop `buf[i] = src[from + i]` for `i` in 0..count: no null is written. */
  method CopyCells(src: seq<string>, from: nat, count: nat) returns (buf: seq<Slot>)
    requires from + count <= |src|
    ensures buf == Args(src[from..from + count])
    ensures ExecArgs(buf) == None
  {
    buf := [];
    var i := 0;
    while i < count
      invariant i <= count
      invariant buf == Args(src[from..from + i])
    {
      assert src[from..from + i + 1] == src[from..from + i] + [src[from + i]];
      buf := buf + [Arg(src[from + i])];
      i := i + 1;
    }
    ExecArgsUnterminated(src[from..from + count]);
  }

  /** The single-pipe buffers corrected: each half terminated by a null. */
  function TerminatedHalves(command: seq<string>): (bufs: PipeHalves)
    requires PipeCount(command) == 1
    ensures ExecArgs(bufs.outputBuf) == Some(SplitAtFirstPipe(command).0)
    ensures ExecArgs(bufs.inputBuf) == Some(SplitAtFirstPipe(command).1)
  {
    var (left, right) := SplitAtFirstPipe(command);
    ExecArgsTerminated(left);
    ExecArgsTerminated(right);
    PipeHalves(Terminated(left), Terminated(right))
  }

  /**
    The fixed 100 x 100 table of the multi-pipe case holds `segs`: at most 100 rows, every
    row but the last with room for its tokens and a null, the last row for its tokens.
    `commandWithPipe` writes the table without checking this.
   */
  predicate FitsTable(segs: seq<seq<string>>)
  {
    && 1 <= |segs| <= TableRows
    && (forall r :: 0 <= r < |segs| - 1 ==> |segs[r]| < TableCols)
    && |Last(segs)| <= TableCols
  }

  /** A "!" at position `i` closes the prefix's last segment and opens an empty one. */
  lemma PrefixPipe(cmd: seq<string>, i: nat)
    requires i < |cmd| && cmd[i] == Pipe
    ensures Split(cmd[..i + 1]) == Split(cmd[..i]) + [[]]
  {
    assert cmd[..i + 1] == cmd[..i] + [Pipe];
    SplitSnocPipe(cmd[..i]);
  }

  /** Any other token at position `i` extends the prefix's last segment. */
  lemma PrefixToken(cmd: seq<string>, i: nat)
    requires i < |cmd| && cmd[i] != Pipe
    ensures var p := Split(cmd[..i]);
      Split(cmd[..i + 1]) == p[..|p| - 1] + [Last(p) + [cmd[i]]]
  {
    assert cmd[..i + 1] == cmd[..i] + [cmd[i]];
    SplitSnocToken(cmd[..i], cmd[i]);
  }

  /** Before each write of the table loop, the cell it writes lies inside the table. */
  lemma TableWriteInBounds(cmd: seq<string>, i: nat)
    requires i < |cmd|
    requires FitsTable(Split(cmd))
    ensures |Split(cmd[..i])| - 1 < TableRows
    ensures |Last(Split(cmd[..i]))| < TableCols
  {
    var p := Split(cmd[..i]);
    var s := Split(cmd);
    SplitPrefixGrows(cmd, i + 1);
    var next := Split(cmd[..i + 1]);
    assert Grows(next, s);
    if cmd[i] == Pipe {
      PrefixPipe(cmd, i);
      assert |next| == |p| + 1;
      assert next[|p| - 1] == s[|p| - 1];
      assert next[|p| - 1] == Last(p);
      assert |s[|p| - 1]| < TableCols;
    } else {
      PrefixToken(cmd, i);
      assert |next| == |p|;
      assert Last(next) == Last(p) + [cmd[i]];
      assert Last(next) <= s[|p| - 1];
      assert |s[|p| - 1]| <= TableCols;
    }
  }

  /**
    The rows written so far match segmentation `segs`: each closed row holds its segment
    and a null, the open (last) row holds its tokens only.
   */
  ghost predicate RowsMatch(mulcmd: seq<seq<Slot>>, segs: seq<seq<string>>)
  {
    && |mulcmd| == |segs| >= 1
    && (forall r :: 0 <= r < |segs| - 1 ==> mulcmd[r] == Terminated(segs[r]))
    && Last(mulcmd) == Args(Last(segs))
  }

  /** A "!" closes the open row with a null and opens an empty one. */
  lemma RowsMatchPipe(command: seq<string>, i: nat, mulcmd: seq<seq<Slot>>)
    requires i < |command| && command[i] == Pipe
    requires RowsMatch(mulcmd, Split(command[..i]))
    ensures RowsMatch(mulcmd[|mulcmd| - 1 := Last(mulcmd) + [Null]] + [[]], Split(command[..i + 1]))
  {
    PrefixPipe(command, i);
  }

  /** Any other token is appended to the open row. */
  lemma RowsMatchToken(command: seq<string>, i: nat, mulcmd: seq<seq<Slot>>)
    requires i < |command| && command[i] != Pipe
    requires RowsMatch(mulcmd, Split(command[..i]))
    ensures RowsMatch(mulcmd[|mulcmd| - 1 := Last(mulcmd) + [Arg(command[i])]], Split(command[..i + 1]))
  {
    var segs := Split(command[..i]);
    PrefixToken(command, i);
    assert Args(Last(segs) + [command[i]]) == Args(Last(segs)) + [Arg(command[i])];
  }

  /**
    The multi-pipe table: row `ar` collects the tokens of segment `ar`; a "!" writes a null
    after the current row's tokens and moves to the next row. The last row is never
    terminated, so `execvp` on it reads past the written cells. Every write lands inside
    the 100 x 100 table.
   */
  method FillTable(command: seq<string>) returns (mulcmd: seq<seq<Slot>>)
    requires FitsTable(Split(command))
    ensures |mulcmd| == |Split(command)| == PipeCount(command) + 1
    ensures |mulcmd| <= TableRows
    ensures forall r :: 0 <= r < |mulcmd| ==> |mulcmd[r]| <= TableCols
    ensures forall r :: 0 <= r < |mulcmd| - 1 ==> mulcmd[r] == Terminated(Split(command)[r])
    ensures Last(mulcmd) == Args(Last(Split(command)))
    ensures forall r :: 0 <= r < |mulcmd| - 1 ==> ExecArgs(mulcmd[r]) == Some(Split(command)[r])
    ensures ExecArgs(Last(mulcmd)) == None
  {
    mulcmd := [[]];
    var ar := 0;
    var a := 0;
    var i := 0;
    assert command[..0] == [];
    while i < |command|
      invariant i <= |command|
      invariant RowsMatch(mulcmd, Split(command[..i]))
      invariant ar == |mulcmd| - 1 && a == |Last(mulcmd)|
    {
      TableWriteInBounds(command, i);
      assert ar < TableRows && a < TableCols;
      if command[i] == Pipe {
        RowsMatchPipe(command, i, mulcmd);
        mulcmd := mulcmd[ar := mulcmd[ar] + [Null]] + [[]];
        ar := ar + 1;
        a := 0;
      } else {
        RowsMatchToken(command, i, mulcmd);
        mulcmd := mulcmd[ar := mulcmd[ar] + [Arg(command[i])]];
        a := a + 1;
      }
      i := i + 1;
    }
    assert command[..i] == command;
    SplitShape(command);
    RowsMatchReadBack(mulcmd, Split(command));
  }

  /**
    Rows that match the segmentation read back as their segments, except the open last
    row, which has no defined read; and they fit the table when the segments do.
   */
  lemma RowsMatchReadBack(mulcmd: seq<seq<Slot>>, segs: seq<seq<string>>)
    requires RowsMatch(mulcmd, segs)
    ensures forall r :: 0 <= r < |mulcmd| - 1 ==> ExecArgs(mulcmd[r]) == Some(segs[r])
    ensures ExecArgs(Last(mulcmd)) == None
    ensures FitsTable(segs) ==> |mulcmd| <= TableRows
    ensures FitsTable(segs) ==> forall r :: 0 <= r < |mulcmd| ==> |mulcmd[r]| <= TableCols
  {
    forall r | 0 <= r < |mulcmd| - 1
      ensures ExecArgs(mulcmd[r]) == Some(segs[r])
    {
      ExecArgsTerminated(segs[r]);
    }
    ExecArgsUnterminated(Last(segs));
  }

  /** The multi-pipe table corrected: every row, the last included, terminated. */
  function TerminatedTable(command: seq<string>): (table: seq<seq<Slot>>)
    ensures |table| == |Split(command)| == PipeCount(command) + 1
    ensures forall r :: 0 <= r < |table| ==> ExecArgs(table[r]) == Some(Split(command)[r])
  {
    var segs := Split(command);
    SplitShape(command);
    var table := seq(|segs|, r requires 0 <= r < |segs| => Terminated(segs[r]));
    assert forall r :: 0 <= r < |table| ==> ExecArgs(table[r]) == Some(segs[r]) by {
      forall r | 0 <= r < |table| {
        ExecArgsTerminated(segs[r]);
      }
    }
    table
  }
}
