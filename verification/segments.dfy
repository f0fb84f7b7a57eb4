/**
  Segmentation of a command vector at pipe tokens.

  `Split` cuts the vector into the pipe-free runs between "!" tokens, left to right, one
  token at a time, in the same order as the table-filling loop of `commandWithPipe`: a pipe
  closes the current segment and opens an empty one, any other token extends the current
  segment. A leading, trailing or doubled "!" therefore yields an empty segment; nothing
  rejects it. `Join` is the inverse: it glues segments back together with "!" between them.
 */
module Segments {
  import opened Tokens

  /** The last element of a non-empty sequence. */
  function Last<T>(s: seq<T>): T
    requires |s| > 0
  {
    s[|s| - 1]
  }

  /** True when no segment contains the pipe token. */
  predicate PipeFree(segs: seq<seq<string>>)
  {
    forall r :: 0 <= r < |segs| ==> Pipe !in segs[r]
  }

  /** The segments of `cmd`, built token by token from the left. */
  function Split(cmd: seq<string>): (segs: seq<seq<string>>)
    ensures |segs| >= 1
  {
    if |cmd| == 0 then [[]]
    else
      var segs := Split(cmd[..|cmd| - 1]);
      var t := cmd[|cmd| - 1];
      if t == Pipe then segs + [[]]
      else segs[..|segs| - 1] + [Last(segs) + [t]]
  }

  /** There is one segment more than there are pipes, and no segment holds a pipe. */
  lemma {:induction false} SplitShape(cmd: seq<string>)
    ensures |Split(cmd)| == PipeCount(cmd) + 1
    ensures PipeFree(Split(cmd))
  {
    if |cmd| > 0 {
      var init := cmd[..|cmd| - 1];
      var t := cmd[|cmd| - 1];
      SplitShape(init);
      assert cmd == init + [t];
      PipeCountSnoc(init, t);
      var p := Split(init);
      if t != Pipe {
        var q := p[..|p| - 1] + [Last(p) + [t]];
        assert Split(cmd) == q;
        forall r | 0 <= r < |q|
          ensures Pipe !in q[r]
        {
          if r == |q| - 1 {
            assert Pipe !in Last(p);
          } else {
            assert q[r] == p[r];
          }
        }
      }
    }
  }

  /** The token vector obtained by putting "!" between consecutive segments. */
  function Join(segs: seq<seq<string>>): (cmd: seq<string>)
    requires |segs| >= 1
    ensures |cmd| + 1 >= |segs|
  {
    if |segs| == 1 then segs[0]
    else Join(segs[..|segs| - 1]) + [Pipe] + Last(segs)
  }

  /** Joining the segments of a vector reproduces the vector. */
  lemma {:induction false} JoinSplit(cmd: seq<string>)
    ensures Join(Split(cmd)) == cmd
  {
    if |cmd| > 0 {
      var init := cmd[..|cmd| - 1];
      var t := cmd[|cmd| - 1];
      assert cmd == init + [t];
      var p := Split(init);
      JoinSplit(init);
      if t == Pipe {
        SplitSnocPipe(init);
        var q := p + [[]];
        assert q[..|q| - 1] == p;
        assert Join(q) == Join(p) + [Pipe] + [];
      } else {
        SplitSnocToken(init, t);
        var q := p[..|p| - 1] + [Last(p) + [t]];
        assert q[..|q| - 1] == p[..|p| - 1];
        if |p| == 1 {
          assert Join(q) == Last(p) + [t];
        } else {
          assert Join(p) == Join(p[..|p| - 1]) + [Pipe] + Last(p);
          assert Join(q) == Join(p[..|p| - 1]) + [Pipe] + (Last(p) + [t]);
        }
      }
    }
  }

  /** Appending pipe-free tokens only extends the last segment. */
  lemma {:induction false} SplitAppendPlain(x: seq<string>, s: seq<string>)
    requires Pipe !in s
    ensures Split(x + s) == Split(x)[..|Split(x)| - 1] + [Last(Split(x)) + s]
  {
    var px := Split(x);
    if |s| == 0 {
      assert x + s == x;
      assert px == px[..|px| - 1] + [Last(px)];
      assert Last(px) + s == Last(px);
    } else {
      var s' := s[..|s| - 1];
      var t := s[|s| - 1];
      assert t in s;
      assert s == s' + [t];
      SplitAppendPlain(x, s');
      var q := Split(x + s');
      SplitSnocToken(x + s', t);
      assert x + s == (x + s') + [t];
      assert q[..|q| - 1] == px[..|px| - 1];
      assert Last(q) == Last(px) + s';
      assert Last(q) + [t] == Last(px) + s;
    }
  }

  /** Appending a "!" closes the last segment and opens an empty one. */
  lemma SplitSnocPipe(x: seq<string>)
    ensures Split(x + [Pipe]) == Split(x) + [[]]
  {
    assert (x + [Pipe])[..|x|] == x;
  }

  /** Appending any other token extends the last segment. */
  lemma SplitSnocToken(x: seq<string>, t: string)
    requires t != Pipe
    ensures Split(x + [t]) == Split(x)[..|Split(x)| - 1] + [Last(Split(x)) + [t]]
  {
    assert (x + [t])[..|x|] == x;
  }

  /** Splitting the join of pipe-free segments gives the segments back. */
  lemma {:induction false} SplitJoin(segs: seq<seq<string>>)
    requires |segs| >= 1
    requires PipeFree(segs)
    ensures Split(Join(segs)) == segs
  {
    if |segs| == 1 {
      assert Pipe !in segs[0];
      PipeFreeIsOneSegment(segs[0]);
    } else {
      var init := segs[..|segs| - 1];
      assert PipeFree(init) by {
        assert forall r :: 0 <= r < |init| ==> init[r] == segs[r];
      }
      SplitJoin(init);
      assert segs == init + [Last(segs)];
      SplitJoinStep(init, Last(segs));
    }
  }

  /** Joining one more pipe-free segment onto a split-stable join keeps it split-stable. */
  lemma SplitJoinStep(init: seq<seq<string>>, l: seq<string>)
    requires |init| >= 1
    requires Split(Join(init)) == init
    requires Pipe !in l
    ensures Split(Join(init + [l])) == init + [l]
  {
    var segs := init + [l];
    assert segs[..|segs| - 1] == init;
    var x := Join(init) + [Pipe];
    assert Join(segs) == x + l;
    SplitSnocPipe(Join(init));
    SplitAppendPlain(x, l);
    assert (init + [[]])[..|init|] == init;
    assert [] + l == l;
  }

  /** A pipe-free vector is a single segment. */
  lemma {:induction false} PipeFreeIsOneSegment(cmd: seq<string>)
    requires Pipe !in cmd
    ensures Split(cmd) == [cmd]
  {
    SplitAppendPlain([], cmd);
    assert [] + cmd == cmd;
  }

  /** The number of pipes in a join is one less than the number of segments. */
  lemma {:induction false} JoinPipeCount(segs: seq<seq<string>>)
    requires |segs| >= 1
    requires PipeFree(segs)
    ensures PipeCount(Join(segs)) == |segs| - 1
  {
    SplitJoin(segs);
    SplitShape(Join(segs));
  }

  /**
    The single-pipe split: the tokens before the first "!" and the tokens after it. The
    left half is pipe-free; when the vector holds exactly one pipe, so is the right half.
   */
  function SplitAtFirstPipe(cmd: seq<string>): (halves: (seq<string>, seq<string>))
    requires Pipe in cmd
    ensures halves.0 + [Pipe] + halves.1 == cmd
    ensures Pipe !in halves.0
    ensures |halves.1| == |cmd| - 1 - |halves.0|
    ensures PipeCount(cmd) == 1 ==> Pipe !in halves.1
  {
    var j := FirstPipe(cmd);
    assert cmd == cmd[..j] + [Pipe] + cmd[j + 1..];
    assert multiset(cmd) == multiset(cmd[..j]) + multiset{Pipe} + multiset(cmd[j + 1..]);
    (cmd[..j], cmd[j + 1..])
  }

  /** The left half is the only pipe-free prefix that is followed by "!". */
  lemma SplitAtFirstPipeUnique(cmd: seq<string>, left: seq<string>, right: seq<string>)
    requires left + [Pipe] + right == cmd
    requires Pipe !in left
    ensures Pipe in cmd
    ensures SplitAtFirstPipe(cmd) == (left, right)
  {
    assert cmd[|left|] == Pipe;
    var (l, r) := SplitAtFirstPipe(cmd);
    assert l == cmd[..|l|] && left == cmd[..|left|];
    assert r == cmd[|l| + 1..] && right == cmd[|left| + 1..];
  }

  /** With exactly one pipe, the single-pipe halves are the two segments of the vector. */
  lemma OnePipeHalvesAreSegments(cmd: seq<string>)
    requires PipeCount(cmd) == 1
    ensures Split(cmd) == [SplitAtFirstPipe(cmd).0, SplitAtFirstPipe(cmd).1]
  {
    var (l, r) := SplitAtFirstPipe(cmd);
    PipeFreeIsOneSegment(l);
    SplitSnocPipe(l);
    assert Split(l + [Pipe]) == [l, []];
    SplitAppendPlain(l + [Pipe], r);
    assert [l, []][..1] == [l] && [] + r == r;
  }

  /**
    `p` is an earlier stage of `s` in the left-to-right segmentation: its closed segments
    are final and its open (last) segment is a prefix of the corresponding segment of `s`.
   */
  ghost predicate Grows(p: seq<seq<string>>, s: seq<seq<string>>)
  {
    && 1 <= |p| <= |s|
    && (forall r :: 0 <= r < |p| - 1 ==> p[r] == s[r])
    && Last(p) <= s[|p| - 1]
  }

  /** The segmentation of every prefix of a vector is an earlier stage of the vector's. */
  lemma {:induction false} SplitPrefixGrows(cmd: seq<string>, i: nat)
    requires i <= |cmd|
    ensures Grows(Split(cmd[..i]), Split(cmd))
  {
    if i == |cmd| {
      assert cmd[..i] == cmd;
    } else {
      var init := cmd[..|cmd| - 1];
      assert init[..i] == cmd[..i];
      SplitPrefixGrows(init, i);
      var p := Split(cmd[..i]);
      var q := Split(init);
      var s := Split(cmd);
      var t := cmd[|cmd| - 1];
      if t == Pipe {
        assert s == q + [[]];
      } else {
        assert s == q[..|q| - 1] + [Last(q) + [t]];
        if |p| == |q| {
          assert Last(p) <= Last(q) <= Last(q) + [t];
        }
      }
    }
  }
}
