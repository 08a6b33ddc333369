/** What one call of the TCP client's `Write` does, as a pure state machine over the
    buffer and the transport writes it issues. `Tcp.TcpClient.Write` is proved to
    perform exactly these writes and to return `WriteResult`; the lemmas below state
    what that means: every byte goes out once and in order, every write ends on a
    newline, writes respect the payload size when the pieces do, only oversized points
    with a time are split, and the error returned is chosen by the delayed-error rule. */
module Batching {
  import opened Wrappers
  import opened LineProtocol

  /** One change of the writer's state. `Check(n)` is a call `checkBuffer(n)` on its
      own; `Append(piece)` is `checkBuffer(|piece| + 1)` followed by appending the
      piece and a newline to the buffer. */
  datatype Step = Check(n: int) | Append(piece: seq<byte>)

  /** The buffer `b` and the transport writes issued so far in one call. */
  datatype State = State(buffer: seq<byte>, writes: seq<seq<byte>>)

  /** The condition under which `checkBuffer(n)` writes the buffer out. */
  predicate NeedsFlush(buffer: seq<byte>, n: int, payloadSize: int)
  {
    |buffer| > 0 && |buffer| + n > payloadSize
  }

  function AfterCheck(s: State, n: int, payloadSize: int): State
  {
    if NeedsFlush(s.buffer, n, payloadSize) then State([], s.writes + [s.buffer]) else s
  }

  function AfterAppend(s: State, piece: seq<byte>): State
  {
    State(s.buffer + piece + [Newline], s.writes)
  }

  function Apply(s: State, step: Step, payloadSize: int): State
  {
    match step
    case Check(n) => AfterCheck(s, n, payloadSize)
    case Append(piece) => AfterAppend(AfterCheck(s, |piece| + 1, payloadSize), piece)
  }

  /** The state after performing `steps` from an empty buffer. */
  function Run(steps: seq<Step>, payloadSize: int): State
  {
    if steps == [] then State([], [])
    else Apply(Run(steps[..|steps| - 1], payloadSize), steps[|steps| - 1], payloadSize)
  }

  /** All transport writes of a call: the intermediate flushes, then the final flush
      when the buffer is not empty. */
  function Transmitted(steps: seq<Step>, payloadSize: int): seq<seq<byte>>
  {
    var s := Run(steps, payloadSize);
    s.writes + (if |s.buffer| > 0 then [s.buffer] else [])
  }

  /** The pieces appended by `steps`, in order. */
  function Pieces(steps: seq<Step>): seq<seq<byte>>
  {
    if steps == [] then []
    else
      var last := steps[|steps| - 1];
      Pieces(steps[..|steps| - 1]) + (if last.Append? then [last.piece] else [])
  }

  /** Whether the writer appends `p` whole rather than splitting it: its time is zero,
      or its size with the newline fits in the payload. */
  predicate Whole(p: Point, payloadSize: int)
  {
    p.zeroTime || |p.bytes| + 1 <= payloadSize
  }

  /** The steps for the sub-points of a split point. */
  function SubSteps(subs: seq<Point>): seq<Step>
  {
    if subs == [] then []
    else SubSteps(subs[..|subs| - 1]) + [Append(subs[|subs| - 1].bytes)]
  }

  /** The steps for one (rounded) point. */
  function PointSteps(p: Point, split: (Point, int) -> seq<Point>, payloadSize: int): seq<Step>
  {
    if Whole(p, payloadSize) then [Append(p.bytes)]
    else [Check(|p.bytes| + 1)] + SubSteps(split(p, payloadSize - 1))
  }

  /** The steps of a whole call, point by point. */
  function Steps(points: seq<Point>, split: (Point, int) -> seq<Point>, payloadSize: int): seq<Step>
  {
    if points == [] then []
    else Steps(points[..|points| - 1], split, payloadSize) + PointSteps(points[|points| - 1], split, payloadSize)
  }

  /** Reference definition of what is sent for one point: its bytes, or the bytes of the
      sub-points `Split(payloadSize - 1)` gives for it. */
  function PointPieces(p: Point, split: (Point, int) -> seq<Point>, payloadSize: int): seq<seq<byte>>
  {
    if Whole(p, payloadSize) then [p.bytes] else BytesOf(split(p, payloadSize - 1))
  }

  /** Reference definition of what is sent for a batch: each point's pieces, in point order. */
  function AllPieces(points: seq<Point>, split: (Point, int) -> seq<Point>, payloadSize: int): seq<seq<byte>>
  {
    if points == [] then []
    else AllPieces(points[..|points| - 1], split, payloadSize) + PointPieces(points[|points| - 1], split, payloadSize)
  }

  /** The most recent failure in a sequence of write outcomes. */
  function LastFailure(outcomes: seq<Option<Error>>): Option<Error>
  {
    if outcomes == [] then None
    else if outcomes[|outcomes| - 1].Some? then outcomes[|outcomes| - 1]
    else LastFailure(outcomes[..|outcomes| - 1])
  }

  /** The outcomes of `count` writes on a connection whose `k`-th write has outcome
      `script(k)`, starting at write number `base`. */
  function Outcomes(script: nat -> Option<Error>, base: nat, count: nat): (r: seq<Option<Error>>)
    ensures |r| == count
    ensures forall k :: 0 <= k < count ==> r[k] == script(base + k)
  {
    seq(count, k requires 0 <= k < count => script(base + k))
  }

  /** What `Write` returns: the final flush's error when it fails, otherwise the error of
      the last failed intermediate flush, or nil. */
  function WriteResult(script: nat -> Option<Error>, base: nat, steps: seq<Step>, payloadSize: int): Option<Error>
  {
    var s := Run(steps, payloadSize);
    var final := script(base + |s.writes|);
    if |s.buffer| > 0 && final.Some? then final
    else LastFailure(Outcomes(script, base, |s.writes|))
  }

  // ---------------------------------------------------------------------------
  // One step, one point or one sub-point more

  lemma RunSnoc(steps: seq<Step>, step: Step, payloadSize: int)
    ensures Run(steps + [step], payloadSize) == Apply(Run(steps, payloadSize), step, payloadSize)
  {
    assert (steps + [step])[..|steps|] == steps;
  }

  lemma StepsSnoc(points: seq<Point>, i: nat, split: (Point, int) -> seq<Point>, payloadSize: int)
    requires i < |points|
    ensures Steps(points[..i + 1], split, payloadSize) == Steps(points[..i], split, payloadSize) + PointSteps(points[i], split, payloadSize)
  {
    assert points[..i + 1][..i] == points[..i];
  }

  lemma SubStepsSnoc(subs: seq<Point>, j: nat)
    requires j < |subs|
    ensures SubSteps(subs[..j + 1]) == SubSteps(subs[..j]) + [Append(subs[j].bytes)]
  {
    assert subs[..j + 1][..j] == subs[..j];
  }

  // ---------------------------------------------------------------------------
  // Byte conservation and order

  lemma {:induction false} PiecesSnoc(steps: seq<Step>, step: Step)
    ensures Pieces(steps + [step]) == Pieces(steps) + (if step.Append? then [step.piece] else [])
  {
    assert (steps + [step])[..|steps|] == steps;
  }

  lemma {:induction false} PiecesAppend(a: seq<Step>, b: seq<Step>)
    ensures Pieces(a + b) == Pieces(a) + Pieces(b)
    decreases |b|
  {
    if b == [] {
      assert a + b == a;
    } else {
      var b' := b[..|b| - 1];
      var last := b[|b| - 1];
      assert a + b == (a + b') + [last];
      assert b == b' + [last];
      PiecesSnoc(a + b', last);
      PiecesSnoc(b', last);
      PiecesAppend(a, b');
    }
  }

  lemma {:induction false} PiecesOfSubSteps(subs: seq<Point>)
    ensures Pieces(SubSteps(subs)) == BytesOf(subs)
  {
    if subs != [] {
      var subs' := subs[..|subs| - 1];
      var last := subs[|subs| - 1];
      PiecesSnoc(SubSteps(subs'), Append(last.bytes));
      PiecesOfSubSteps(subs');
      assert BytesOf(subs) == BytesOf(subs') + [last.bytes];
    }
  }

  /** The pieces appended by the steps of a batch are its reference pieces, in order. */
  lemma {:induction false} PiecesOfSteps(points: seq<Point>, split: (Point, int) -> seq<Point>, payloadSize: int)
    ensures Pieces(Steps(points, split, payloadSize)) == AllPieces(points, split, payloadSize)
  {
    if points != [] {
      var points' := points[..|points| - 1];
      var p := points[|points| - 1];
      PiecesOfSteps(points', split, payloadSize);
      PiecesAppend(Steps(points', split, payloadSize), PointSteps(p, split, payloadSize));
      PiecesOfPointSteps(p, split, payloadSize);
    }
  }

  lemma PiecesOfPointSteps(p: Point, split: (Point, int) -> seq<Point>, payloadSize: int)
    ensures Pieces(PointSteps(p, split, payloadSize)) == PointPieces(p, split, payloadSize)
  {
    if Whole(p, payloadSize) {
      PiecesSnoc([], Append(p.bytes));
    } else {
      var subs := split(p, payloadSize - 1);
      PiecesAppend([Check(|p.bytes| + 1)], SubSteps(subs));
      PiecesSnoc([], Check(|p.bytes| + 1));
      PiecesOfSubSteps(subs);
    }
  }

  lemma {:induction false} RunConserves(steps: seq<Step>, payloadSize: int)
    ensures Concat(Run(steps, payloadSize).writes) + Run(steps, payloadSize).buffer == Framed(Pieces(steps))
  {
    if steps != [] {
      var steps' := steps[..|steps| - 1];
      var step := steps[|steps| - 1];
      assert steps == steps' + [step];
      PiecesSnoc(steps', step);
      RunConserves(steps', payloadSize);
      var s := Run(steps', payloadSize);
      var n := if step.Check? then step.n else |step.piece| + 1;
      var c := AfterCheck(s, n, payloadSize);
      if NeedsFlush(s.buffer, n, payloadSize) {
        ConcatSnoc(s.writes, s.buffer);
      }
      assert Concat(c.writes) + c.buffer == Concat(s.writes) + s.buffer;
      if step.Append? {
        FramedSnoc(Pieces(steps'), step.piece);
        assert Run(steps, payloadSize) == AfterAppend(c, step.piece);
        assert Pieces(steps) == Pieces(steps') + [step.piece];
      } else {
        assert Run(steps, payloadSize) == c;
        assert Pieces(steps) == Pieces(steps');
      }
    }
  }

  /** Laid end to end, the transport writes of a call are exactly the appended pieces,
      each followed by a newline, in order: nothing is dropped, repeated or reordered.
      The writes do not depend on the outcomes of earlier writes. */
  lemma {:induction false} TransmittedConserves(steps: seq<Step>, payloadSize: int)
    ensures Concat(Transmitted(steps, payloadSize)) == Framed(Pieces(steps))
  {
    RunConserves(steps, payloadSize);
    var s := Run(steps, payloadSize);
    if |s.buffer| > 0 {
      ConcatSnoc(s.writes, s.buffer);
    } else {
      assert s.writes + [] == s.writes;
    }
  }

  /** End to end: the bytes a call of `Write` sends are the batch's reference pieces,
      point by point and within a split point sub-point by sub-point, each followed by
      a newline; a reader cutting the stream at newlines gets those pieces back when
      they contain no newline themselves. */
  lemma {:induction false} BatchSentInOrder(points: seq<Point>, split: (Point, int) -> seq<Point>, payloadSize: int)
    ensures Concat(Transmitted(Steps(points, split, payloadSize), payloadSize)) == Framed(AllPieces(points, split, payloadSize))
    ensures (forall i :: 0 <= i < |AllPieces(points, split, payloadSize)| ==> Newline !in AllPieces(points, split, payloadSize)[i]) ==>
              Lines(Concat(Transmitted(Steps(points, split, payloadSize), payloadSize))) == AllPieces(points, split, payloadSize)
  {
    TransmittedConserves(Steps(points, split, payloadSize), payloadSize);
    PiecesOfSteps(points, split, payloadSize);
    if forall i :: 0 <= i < |AllPieces(points, split, payloadSize)| ==> Newline !in AllPieces(points, split, payloadSize)[i] {
      LinesOfFramed(AllPieces(points, split, payloadSize));
    }
  }

  /** The last step of `Write`: the final flush happens when the buffer is non-empty,
      and its failure overrides the delayed error. */
  lemma WriteEnds(script: nat -> Option<Error>, w0: seq<seq<byte>>, writes: seq<seq<byte>>, steps: seq<Step>,
                  payloadSize: int, b: seq<byte>, delayed: Option<Error>, err: Option<Error>)
    requires var s := Run(steps, payloadSize);
             && b == s.buffer
             && delayed == LastFailure(Outcomes(script, |w0|, |s.writes|))
             && writes == w0 + s.writes + (if |b| > 0 then [b] else [])
             && err == if |b| > 0 && script(|w0| + |s.writes|).Some? then script(|w0| + |s.writes|) else delayed
    ensures writes == w0 + Transmitted(steps, payloadSize)
    ensures err == WriteResult(script, |w0|, steps, payloadSize)
  {
  }

  /** What a connection has seen after one call that started when it had seen `w0`:
      the batch's pieces, framed, in writes that each end on a newline. */
  lemma SentAfter(w0: seq<seq<byte>>, writes: seq<seq<byte>>, points: seq<Point>, split: (Point, int) -> seq<Point>, payloadSize: int)
    requires writes == w0 + Transmitted(Steps(points, split, payloadSize), payloadSize)
    ensures Concat(writes[|w0|..]) == Framed(AllPieces(points, split, payloadSize))
    ensures forall k :: |w0| <= k < |writes| ==> Terminated(writes[k])
  {
    assert writes[|w0|..] == Transmitted(Steps(points, split, payloadSize), payloadSize);
    BatchSentInOrder(points, split, payloadSize);
    TransmittedFramed(Steps(points, split, payloadSize), payloadSize);
    forall k | |w0| <= k < |writes| ensures Terminated(writes[k]) {
      assert writes[k] == Transmitted(Steps(points, split, payloadSize), payloadSize)[k - |w0|];
    }
  }

  /** When `Split` partitions a point's bytes, the pieces sent for that point join up to
      its bytes again, whether it was split or not. */
  lemma {:induction false} PointPiecesJoin(p: Point, split: (Point, int) -> seq<Point>, payloadSize: int)
    requires !Whole(p, payloadSize) ==> Concat(BytesOf(split(p, payloadSize - 1))) == p.bytes
    ensures Concat(PointPieces(p, split, payloadSize)) == p.bytes
  {
    if Whole(p, payloadSize) {
      assert [p.bytes][1..] == [];
      assert Concat([p.bytes]) == p.bytes + Concat([]);
    }
  }

  // ---------------------------------------------------------------------------
  // Framing: every write is non-empty and ends on a newline

  predicate Terminated(chunk: seq<byte>)
  {
    |chunk| > 0 && chunk[|chunk| - 1] == Newline
  }

  lemma {:induction false} RunFramed(steps: seq<Step>, payloadSize: int)
    ensures forall k :: 0 <= k < |Run(steps, payloadSize).writes| ==> Terminated(Run(steps, payloadSize).writes[k])
    ensures Run(steps, payloadSize).buffer == [] || Terminated(Run(steps, payloadSize).buffer)
  {
    if steps != [] {
      RunFramed(steps[..|steps| - 1], payloadSize);
    }
  }

  /** Every transport write of a call is non-empty and ends with a newline, so no piece
      is ever cut between two writes. */
  lemma {:induction false} TransmittedFramed(steps: seq<Step>, payloadSize: int)
    ensures forall k :: 0 <= k < |Transmitted(steps, payloadSize)| ==> Terminated(Transmitted(steps, payloadSize)[k])
  {
    RunFramed(steps, payloadSize);
  }

  // ---------------------------------------------------------------------------
  // Size bounds

  predicate PiecesFit(pieces: seq<seq<byte>>, payloadSize: int)
  {
    forall k :: 0 <= k < |pieces| ==> |pieces[k]| + 1 <= payloadSize
  }

  lemma {:induction false} RunBounded(steps: seq<Step>, payloadSize: int)
    requires PiecesFit(Pieces(steps), payloadSize)
    ensures forall k :: 0 <= k < |Run(steps, payloadSize).writes| ==> |Run(steps, payloadSize).writes[k]| <= payloadSize
    ensures Run(steps, payloadSize).buffer == [] || |Run(steps, payloadSize).buffer| <= payloadSize
  {
    if steps != [] {
      var steps' := steps[..|steps| - 1];
      var step := steps[|steps| - 1];
      PiecesSnoc(steps', step);
      assert steps' + [step] == steps;
      assert PiecesFit(Pieces(steps'), payloadSize) by {
        forall k | 0 <= k < |Pieces(steps')|
          ensures |Pieces(steps')[k]| + 1 <= payloadSize
        {
          assert Pieces(steps)[k] == Pieces(steps')[k];
        }
      }
      RunBounded(steps', payloadSize);
      if step.Append? {
        assert Pieces(steps)[|Pieces(steps)| - 1] == step.piece;
      }
    }
  }

  /** When every appended piece fits with its newline, every transport write fits in the
      payload size. */
  lemma {:induction false} TransmittedBounded(steps: seq<Step>, payloadSize: int)
    requires PiecesFit(Pieces(steps), payloadSize)
    ensures forall k :: 0 <= k < |Transmitted(steps, payloadSize)| ==> |Transmitted(steps, payloadSize)[k]| <= payloadSize
  {
    RunBounded(steps, payloadSize);
  }

  /** What `Split` is relied on for: every sub-point of an oversized point with a time is
      at most `payloadSize - 1` bytes. */
  predicate SplitWithinLimit(points: seq<Point>, split: (Point, int) -> seq<Point>, payloadSize: int)
  {
    forall i :: 0 <= i < |points| && !Whole(points[i], payloadSize) ==>
      AllWithin(split(points[i], payloadSize - 1), payloadSize - 1)
  }

  predicate AllWithin(subs: seq<Point>, limit: int)
  {
    forall j :: 0 <= j < |subs| ==> |subs[j].bytes| <= limit
  }

  /** Points with a zero time that fit with their newline. */
  predicate ZeroTimeFits(points: seq<Point>, payloadSize: int)
  {
    forall i :: 0 <= i < |points| && points[i].zeroTime ==> |points[i].bytes| + 1 <= payloadSize
  }

  lemma {:induction false} AllPiecesFit(points: seq<Point>, split: (Point, int) -> seq<Point>, payloadSize: int)
    requires ZeroTimeFits(points, payloadSize)
    requires SplitWithinLimit(points, split, payloadSize)
    ensures PiecesFit(AllPieces(points, split, payloadSize), payloadSize)
  {
    if points != [] {
      var points' := points[..|points| - 1];
      var p := points[|points| - 1];
      assert ZeroTimeFits(points', payloadSize) by {
        forall i | 0 <= i < |points'| ensures points'[i] == points[i] { }
      }
      assert SplitWithinLimit(points', split, payloadSize) by {
        forall i | 0 <= i < |points'| ensures points'[i] == points[i] { }
      }
      AllPiecesFit(points', split, payloadSize);
      var mine := PointPieces(p, split, payloadSize);
      assert PiecesFit(mine, payloadSize);
      var all := AllPieces(points, split, payloadSize);
      var before := AllPieces(points', split, payloadSize);
      assert all == before + mine;
      forall k | 0 <= k < |all| ensures |all[k]| + 1 <= payloadSize {
        if k < |before| {
          assert all[k] == before[k];
        } else {
          assert all[k] == mine[k - |before|];
        }
      }
    }
  }

  /** When every zero-time point fits and `Split` keeps to its limit, every transport
      write of the call is at most `payloadSize` bytes. */
  lemma {:induction false} WritesWithinPayload(points: seq<Point>, split: (Point, int) -> seq<Point>, payloadSize: int)
    requires ZeroTimeFits(points, payloadSize)
    requires SplitWithinLimit(points, split, payloadSize)
    ensures forall k :: 0 <= k < |Transmitted(Steps(points, split, payloadSize), payloadSize)| ==>
              |Transmitted(Steps(points, split, payloadSize), payloadSize)[k]| <= payloadSize
  {
    AllPiecesFit(points, split, payloadSize);
    PiecesOfSteps(points, split, payloadSize);
    TransmittedBounded(Steps(points, split, payloadSize), payloadSize);
  }

  /** The steps of two runs of points laid end to end. */
  lemma {:induction false} StepsAppend(a: seq<Point>, b: seq<Point>, split: (Point, int) -> seq<Point>, payloadSize: int)
    ensures Steps(a + b, split, payloadSize) == Steps(a, split, payloadSize) + Steps(b, split, payloadSize)
  {
    if b != [] {
      var b' := b[..|b| - 1];
      StepsAppend(a, b', split, payloadSize);
      assert (a + b)[..|a + b| - 1] == a + b';
      assert (a + b)[|a + b| - 1] == b[|b| - 1];
    } else {
      assert a + b == a;
    }
  }

  predicate IsPrefix(a: seq<seq<byte>>, b: seq<seq<byte>>)
  {
    |a| <= |b| && b[..|a|] == a
  }

  /** Writes once issued stay issued: later steps only add writes after them. */
  lemma {:induction false} RunKeepsWrites(steps: seq<Step>, more: seq<Step>, payloadSize: int)
    ensures IsPrefix(Run(steps, payloadSize).writes, Run(steps + more, payloadSize).writes)
    ensures IsPrefix(Run(steps, payloadSize).writes, Transmitted(steps + more, payloadSize))
  {
    if more == [] {
      assert steps + more == steps;
    } else {
      var more' := more[..|more| - 1];
      RunKeepsWrites(steps, more', payloadSize);
      assert steps + more == (steps + more') + [more[|more| - 1]];
      RunSnoc(steps + more', more[|more| - 1], payloadSize);
    }
  }

  /** The first step a point produces always flushes a non-empty buffer that is
      already over the payload size. */
  predicate Flushing(step: Step)
  {
    step.Check? ==> step.n >= 1
  }

  /** A flushing step on a non-empty buffer over the payload size writes that buffer. */
  lemma FlushingApply(s: State, step: Step, payloadSize: int)
    requires s.buffer != [] && |s.buffer| > payloadSize && Flushing(step)
    ensures Apply(s, step, payloadSize).writes == s.writes + [s.buffer]
  {
    if step.Append? {
      assert NeedsFlush(s.buffer, |step.piece| + 1, payloadSize);
    } else {
      assert NeedsFlush(s.buffer, step.n, payloadSize);
    }
  }

  lemma PointStepsHead(q: Point, split: (Point, int) -> seq<Point>, payloadSize: int)
    ensures PointSteps(q, split, payloadSize) != []
    ensures Flushing(PointSteps(q, split, payloadSize)[0])
  {
  }

  lemma {:induction false} StepsHead(post: seq<Point>, split: (Point, int) -> seq<Point>, payloadSize: int)
    requires post != []
    ensures Steps(post, split, payloadSize) != []
    ensures Flushing(Steps(post, split, payloadSize)[0])
  {
    var q := post[0];
    PointStepsHead(q, split, payloadSize);
    StepsAppend([q], post[1..], split, payloadSize);
    assert [q] + post[1..] == post;
    assert [q][..0] == [];
    assert Steps([q], split, payloadSize) == Steps([], split, payloadSize) + PointSteps(q, split, payloadSize);
    assert Steps(post, split, payloadSize)[0] == PointSteps(q, split, payloadSize)[0];
  }

  /** A buffer over the payload size goes out alone: the next flushing step writes it,
      and without one the final flush does. */
  lemma BufferSentAlone(steps: seq<Step>, more: seq<Step>, payloadSize: int)
    requires Run(steps, payloadSize).buffer != [] && |Run(steps, payloadSize).buffer| > payloadSize
    requires more != [] ==> Flushing(more[0])
    ensures var s := Run(steps, payloadSize);
            var t := Transmitted(steps + more, payloadSize);
            |s.writes| < |t| && t[|s.writes|] == s.buffer
  {
    var s := Run(steps, payloadSize);
    if more == [] {
      assert steps + more == steps;
      assert Transmitted(steps, payloadSize) == s.writes + [s.buffer];
    } else {
      var first := more[0];
      var flushed := steps + [first];
      RunSnoc(steps, first, payloadSize);
      FlushingApply(s, first, payloadSize);
      assert Run(flushed, payloadSize).writes == s.writes + [s.buffer];
      assert steps + more == flushed + more[1..];
      RunKeepsWrites(flushed, more[1..], payloadSize);
      assert IsPrefix(s.writes + [s.buffer], Transmitted(steps + more, payloadSize));
    }
  }

  lemma OversizedZeroTimeBuffered(pre: seq<Point>, p: Point, split: (Point, int) -> seq<Point>, payloadSize: int)
    requires p.zeroTime && |p.bytes| + 1 > payloadSize
    ensures Run(Steps(pre + [p], split, payloadSize), payloadSize).buffer == p.bytes + [Newline]
  {
    var s0 := Steps(pre, split, payloadSize);
    assert (pre + [p])[..|pre|] == pre;
    assert PointSteps(p, split, payloadSize) == [Append(p.bytes)];
    assert Steps(pre + [p], split, payloadSize) == s0 + [Append(p.bytes)];
    RunSnoc(s0, Append(p.bytes), payloadSize);
  }

  /** A zero-time point is never split, so one that does not fit, wherever it stands in
      the batch, is sent as a write of its own, its bytes and newline and nothing else,
      longer than the payload size: the next check flushes it, or the final flush does. */
  lemma OversizedZeroTimeExceeds(pre: seq<Point>, p: Point, post: seq<Point>, split: (Point, int) -> seq<Point>, payloadSize: int)
    requires p.zeroTime && |p.bytes| + 1 > payloadSize
    ensures Run(Steps(pre + [p], split, payloadSize), payloadSize).buffer == p.bytes + [Newline]
    ensures var k := |Run(Steps(pre + [p], split, payloadSize), payloadSize).writes|;
            var t := Transmitted(Steps(pre + [p] + post, split, payloadSize), payloadSize);
            k < |t| && t[k] == p.bytes + [Newline] && |t[k]| > payloadSize
  {
    OversizedZeroTimeBuffered(pre, p, split, payloadSize);
    var steps := Steps(pre + [p], split, payloadSize);
    var more := Steps(post, split, payloadSize);
    StepsAppend(pre + [p], post, split, payloadSize);
    if post != [] {
      StepsHead(post, split, payloadSize);
    }
    BufferSentAlone(steps, more, payloadSize);
  }

  /** The steps of three points that each fit are one append per point. */
  lemma ThreeWholeSteps(p: Point, q: Point, r: Point, split: (Point, int) -> seq<Point>, payloadSize: int)
    requires Whole(p, payloadSize) && Whole(q, payloadSize) && Whole(r, payloadSize)
    ensures Steps([p, q, r], split, payloadSize) == [Append(p.bytes), Append(q.bytes), Append(r.bytes)]
  {
    assert [p, q, r][..2] == [p, q] && [p, q][..1] == [p] && [p][..0] == [];
    assert Steps([p], split, payloadSize) == [Append(p.bytes)];
    assert Steps([p, q], split, payloadSize) == [Append(p.bytes), Append(q.bytes)];
  }

  /** Appending a piece that does not fit beside a non-empty buffer first writes the
      buffer out, then starts a new buffer with the piece. */
  lemma AppendOverflows(s: State, piece: seq<byte>, payloadSize: int)
    requires s.buffer != [] && |s.buffer| + |piece| + 1 > payloadSize
    ensures Apply(s, Append(piece), payloadSize) == State(piece + [Newline], s.writes + [s.buffer])
  {
  }

  /** With payload size 20, three points of 10 bytes each with a time go out as three
      writes of 11 bytes, in order: each later point overflows the buffer holding the one
      before. */
  lemma ThreeTenBytePoints(p: Point, q: Point, r: Point, split: (Point, int) -> seq<Point>)
    requires |p.bytes| == 10 && !p.zeroTime
    requires |q.bytes| == 10 && !q.zeroTime
    requires |r.bytes| == 10 && !r.zeroTime
    ensures Run(Steps([p, q, r], split, 20), 20) == State(r.bytes + [Newline], [p.bytes + [Newline], q.bytes + [Newline]])
    ensures Transmitted(Steps([p, q, r], split, 20), 20) == [p.bytes + [Newline], q.bytes + [Newline], r.bytes + [Newline]]
  {
    var x, y, z := Append(p.bytes), Append(q.bytes), Append(r.bytes);
    ThreeWholeSteps(p, q, r, split, 20);
    RunSnoc([], x, 20);
    assert [] + [x] == [x];
    var s1 := State(p.bytes + [Newline], []);
    assert Run([x], 20) == s1;
    RunSnoc([x], y, 20);
    assert [x] + [y] == [x, y];
    AppendOverflows(s1, q.bytes, 20);
    var s2 := State(q.bytes + [Newline], [p.bytes + [Newline]]);
    assert Run([x, y], 20) == s2;
    RunSnoc([x, y], z, 20);
    assert [x, y] + [z] == [x, y, z];
    AppendOverflows(s2, r.bytes, 20);
  }

  /** In the same batch, when the first flush fails and the later ones succeed, all
      three writes are still made and the call returns the first flush's error. */
  lemma ThreeTenBytePointsFirstFlushFails(p: Point, q: Point, r: Point, split: (Point, int) -> seq<Point>,
                                          script: nat -> Option<Error>)
    requires |p.bytes| == 10 && !p.zeroTime
    requires |q.bytes| == 10 && !q.zeroTime
    requires |r.bytes| == 10 && !r.zeroTime
    requires script(0).Some? && script(1) == None && script(2) == None
    ensures Transmitted(Steps([p, q, r], split, 20), 20) == [p.bytes + [Newline], q.bytes + [Newline], r.bytes + [Newline]]
    ensures WriteResult(script, 0, Steps([p, q, r], split, 20), 20) == script(0)
  {
    ThreeTenBytePoints(p, q, r, split);
    var outcomes := Outcomes(script, 0, 2);
    assert outcomes == [script(0), None];
    assert outcomes[..1] == [script(0)];
    assert LastFailure([script(0)]) == script(0);
    assert LastFailure(outcomes) == script(0);
    assert script(0 + 2) == None;
  }

  // ---------------------------------------------------------------------------
  // Splitting

  /** The buffer is empty when a point is split: the `checkBuffer(pointSize)` before
      the split flushes whatever it held. */
  lemma SplitStartsEmpty(s: State, p: Point, payloadSize: int)
    requires !Whole(p, payloadSize)
    ensures Apply(s, Check(|p.bytes| + 1), payloadSize).buffer == []
    ensures Apply(s, Check(|p.bytes| + 1), payloadSize).writes ==
              s.writes + (if s.buffer == [] then [] else [s.buffer])
  {
  }

  /** `Split` is consulted only for points that have a time and do not fit, and only
      with limit `payloadSize - 1`: two splitters that agree there give the same steps,
      hence the same transport writes. */
  lemma {:induction false} SplitOnlyWhenOversized(points: seq<Point>, split1: (Point, int) -> seq<Point>,
                                                  split2: (Point, int) -> seq<Point>, payloadSize: int)
    requires forall i :: 0 <= i < |points| && !Whole(points[i], payloadSize) ==>
               split1(points[i], payloadSize - 1) == split2(points[i], payloadSize - 1)
    ensures Steps(points, split1, payloadSize) == Steps(points, split2, payloadSize)
  {
    if points != [] {
      var points' := points[..|points| - 1];
      forall i | 0 <= i < |points'| && !Whole(points'[i], payloadSize)
        ensures split1(points'[i], payloadSize - 1) == split2(points'[i], payloadSize - 1)
      {
        assert points'[i] == points[i];
      }
      SplitOnlyWhenOversized(points', split1, split2, payloadSize);
    }
  }

  /** A batch of points whose time is zero, or that fit, is sent point by point, whole,
      however large the points are. */
  lemma {:induction false} WholePointsUnsplit(points: seq<Point>, split: (Point, int) -> seq<Point>, payloadSize: int)
    requires forall i :: 0 <= i < |points| ==> Whole(points[i], payloadSize)
    ensures AllPieces(points, split, payloadSize) == BytesOf(points)
  {
    if points != [] {
      var points' := points[..|points| - 1];
      assert forall i :: 0 <= i < |points'| ==> points'[i] == points[i];
      WholePointsUnsplit(points', split, payloadSize);
      assert BytesOf(points) == BytesOf(points') + [points[|points| - 1].bytes];
    }
  }

  // ---------------------------------------------------------------------------
  // The delayed-error rule

  lemma {:induction false} LastFailureNone(outcomes: seq<Option<Error>>)
    ensures LastFailure(outcomes) == None <==> forall k :: 0 <= k < |outcomes| ==> outcomes[k] == None
  {
    if outcomes != [] {
      var outcomes' := outcomes[..|outcomes| - 1];
      LastFailureNone(outcomes');
      if outcomes[|outcomes| - 1] == None {
        assert forall k :: 0 <= k < |outcomes'| ==> outcomes'[k] == outcomes[k];
      }
    }
  }

  /** A failure is reported only if it is the latest one: no later write failed. */
  lemma {:induction false} LastFailureIsLatest(outcomes: seq<Option<Error>>)
    ensures LastFailure(outcomes).Some? ==>
              exists k :: 0 <= k < |outcomes| && outcomes[k] == LastFailure(outcomes) &&
                forall j :: k < j < |outcomes| ==> outcomes[j] == None
  {
    if outcomes != [] && outcomes[|outcomes| - 1] == None {
      var outcomes' := outcomes[..|outcomes| - 1];
      LastFailureIsLatest(outcomes');
      if LastFailure(outcomes).Some? {
        var k :| 0 <= k < |outcomes'| && outcomes'[k] == LastFailure(outcomes') &&
          forall j :: k < j < |outcomes'| ==> outcomes'[j] == None;
        assert outcomes[k] == outcomes'[k];
        forall j | k < j < |outcomes| ensures outcomes[j] == None {
          if j < |outcomes'| {
            assert outcomes[j] == outcomes'[j];
          }
        }
      }
    }
  }

  /** The result rule of `Write`, on the connection's outcomes: a failed final flush
      wins; otherwise nil exactly when no intermediate flush failed, and else the error of
      the latest failed intermediate flush. */
  lemma ResultRule(script: nat -> Option<Error>, base: nat, steps: seq<Step>, payloadSize: int)
    ensures var s := Run(steps, payloadSize);
            var last := base + |s.writes|;
            var r := WriteResult(script, base, steps, payloadSize);
            (|s.buffer| > 0 && script(last).Some? ==> r == script(last)) &&
            (!(|s.buffer| > 0 && script(last).Some?) ==>
               (r == None <==> forall k: nat :: base <= k < last ==> script(k) == None) &&
               (r.Some? ==> exists k: nat :: base <= k < last && script(k) == r &&
                              forall j: nat :: k < j < last ==> script(j) == None))
  {
    var s := Run(steps, payloadSize);
    var last := base + |s.writes|;
    var outcomes := Outcomes(script, base, |s.writes|);
    LastFailureNone(outcomes);
    LastFailureIsLatest(outcomes);
    var r := WriteResult(script, base, steps, payloadSize);
    if !(|s.buffer| > 0 && script(last).Some?) {
      assert r == LastFailure(outcomes);
      if r == None {
        forall k: nat | base <= k < last ensures script(k) == None {
          assert outcomes[k - base] == script(k);
        }
      } else {
        var i :| 0 <= i < |outcomes| && outcomes[i] == r && forall j :: i < j < |outcomes| ==> outcomes[j] == None;
        assert script(base + i) == r;
        forall j: nat | base + i < j < last ensures script(j) == None {
          assert outcomes[j - base] == script(j);
        }
      }
      if forall k: nat :: base <= k < last ==> script(k) == None {
        forall k | 0 <= k < |outcomes| ensures outcomes[k] == None {
          assert script(base + k) == None;
        }
      }
    }
  }
}
