/** The TCP client of the InfluxDB line-protocol writer: a connection that records
    every write attempted on it, and the client that packs a batch of points into
    writes no longer than its payload size. */
module Tcp {
  import opened Wrappers
  import opened LineProtocol
  import opened Batching

  /** The default payload size, a reasonable size for TCP packets travelling over the
      internet. */
  const TCPPayloadSize: int := 512

  /** The message of the error the query operations return. */
  const QueryUnsupported: string := "Querying via TCP is not supported"

  /** The client's configuration; a payload size of 0 means "use the default". */
  datatype TCPConfig = TCPConfig(addr: string, payloadSize: int)

  /** A batch: the precision tag (such as "s" or "ms") and the points, in order. */
  datatype BatchPoints = BatchPoints(precision: string, points: seq<Point>)

  /** A query, which this transport never runs. */
  datatype Query = Query(command: string, database: string)

  /** The responses a query would produce; this transport produces none. */
  datatype Response = Response(results: seq<string>)
  datatype ChunkedResponse = ChunkedResponse(chunks: seq<Response>)

  /** The payload size the client uses for a configuration: the configured value, or the
      default when it is 0. Any other value, a negative one included, is kept. */
  function PayloadSizeFor(conf: TCPConfig): (size: int)
    ensures size != 0
    ensures conf.payloadSize == 0 ==> size == TCPPayloadSize
    ensures conf.payloadSize != 0 ==> size == conf.payloadSize
  {
    if conf.payloadSize == 0 then TCPPayloadSize else conf.payloadSize
  }

  /** The points of a batch after rounding each to the batch's precision. */
  function Rounded(bp: BatchPoints, round: (string, Point) -> Point): (r: seq<Point>)
    ensures |r| == |bp.points|
    ensures forall i :: 0 <= i < |bp.points| ==> r[i] == round(bp.precision, bp.points[i])
  {
    seq(|bp.points|, i requires 0 <= i < |bp.points| => round(bp.precision, bp.points[i]))
  }

  /** An open connection. `writes` records every write attempted on it, in order; the
      `k`-th write (counting from 0 over the connection's life) fails with
      `outcome(k)` when that is `Some`, and succeeds otherwise. */
  class Conn {
    var writes: seq<seq<byte>>
    const outcome: nat -> Option<Error>

    constructor (outcome: nat -> Option<Error>)
      ensures writes == [] && this.outcome == outcome
    {
      writes := [];
      this.outcome := outcome;
    }

    method Write(data: seq<byte>) returns (err: Option<Error>)
      modifies this
      ensures writes == old(writes) + [data]
      ensures err == outcome(|old(writes)|)
    {
      err := outcome(|writes|);
      writes := writes + [data];
    }
  }

  class TcpClient {
    const conn: Conn
    const payloadSize: int

    /** The client over a connection that is already open. */
    constructor NewTCPClient(conf: TCPConfig, conn: Conn)
      ensures this.conn == conn
      ensures payloadSize == PayloadSizeFor(conf)
    {
      this.conn := conn;
      payloadSize := PayloadSizeFor(conf);
    }

    /** The buffer `b` and the delayed error agree with the abstract state `s` of the
        call that started when the connection had seen `w0`. */
    ghost predicate InSync(s: State, w0: seq<seq<byte>>, b: seq<byte>, delayed: Option<Error>)
      reads conn
    {
      && conn.writes == w0 + s.writes
      && b == s.buffer
      && delayed == LastFailure(Outcomes(conn.outcome, |w0|, |s.writes|))
    }

    /** The `checkBuffer(n)` closure: when the buffer is non-empty and `n` more bytes
        would overflow the payload, write the buffer out, remember a failure as the
        delayed error, and empty the buffer whether or not the write failed. */
    method CheckBuffer(b: seq<byte>, n: int, delayed: Option<Error>, ghost s: State, ghost w0: seq<seq<byte>>)
      returns (b': seq<byte>, delayed': Option<Error>)
      requires InSync(s, w0, b, delayed)
      modifies conn
      ensures NeedsFlush(b, n, payloadSize) ==>
                && conn.writes == old(conn.writes) + [b]
                && b' == []
                && delayed' == (if conn.outcome(|old(conn.writes)|).Some? then conn.outcome(|old(conn.writes)|) else delayed)
      ensures !NeedsFlush(b, n, payloadSize) ==> conn.writes == old(conn.writes) && b' == b && delayed' == delayed
      ensures InSync(AfterCheck(s, n, payloadSize), w0, b', delayed')
    {
      b', delayed' := b, delayed;
      if |b| > 0 && |b| + n > payloadSize {
        var err := conn.Write(b);
        if err.Some? {
          delayed' := err;
        }
        b' := [];
        ghost var outcomes := Outcomes(conn.outcome, |w0|, |s.writes|);
        assert Outcomes(conn.outcome, |w0|, |s.writes| + 1) == outcomes + [conn.outcome(|w0| + |s.writes|)];
      }
    }

    /** The loop over the sub-points of a split point: each gets its own
        `checkBuffer` and is then appended with its newline. */
    method AppendSubPoints(subs: seq<Point>, b: seq<byte>, delayed: Option<Error>, ghost trace: seq<Step>, ghost w0: seq<seq<byte>>)
      returns (b': seq<byte>, delayed': Option<Error>)
      requires InSync(Run(trace, payloadSize), w0, b, delayed)
      modifies conn
      ensures InSync(Run(trace + SubSteps(subs), payloadSize), w0, b', delayed')
    {
      b', delayed' := b, delayed;
      ghost var done := trace;
      for j := 0 to |subs|
        invariant done == trace + SubSteps(subs[..j])
        invariant InSync(Run(done, payloadSize), w0, b', delayed')
      {
        var sp := subs[j];
        SubStepsSnoc(subs, j);
        b', delayed' := CheckBuffer(b', |sp.bytes| + 1, delayed', Run(done, payloadSize), w0);
        b' := b' + sp.bytes + [Newline];
        RunSnoc(done, Append(sp.bytes), payloadSize);
        done := done + [Append(sp.bytes)];
      }
      assert subs[..|subs|] == subs;
    }

    /** One pass of the loop over the points, for a point already rounded: check the
        buffer for the point's size with its newline, then append the point whole when
        its time is zero or it fits, or else split it with limit `payloadSize - 1` and
        append the sub-points. */
    method WritePoint(p: Point, split: (Point, int) -> seq<Point>, b: seq<byte>, delayed: Option<Error>,
                      ghost trace: seq<Step>, ghost w0: seq<seq<byte>>)
      returns (b': seq<byte>, delayed': Option<Error>)
      requires InSync(Run(trace, payloadSize), w0, b, delayed)
      modifies conn
      ensures InSync(Run(trace + PointSteps(p, split, payloadSize), payloadSize), w0, b', delayed')
    {
      var pointSize := |p.bytes| + 1;
      b', delayed' := CheckBuffer(b, pointSize, delayed, Run(trace, payloadSize), w0);
      if p.zeroTime || pointSize <= payloadSize {
        b' := b' + p.bytes + [Newline];
        RunSnoc(trace, Append(p.bytes), payloadSize);
        assert PointSteps(p, split, payloadSize) == [Append(p.bytes)];
      } else {
        var subs := split(p, payloadSize - 1);
        RunSnoc(trace, Check(pointSize), payloadSize);
        b', delayed' := AppendSubPoints(subs, b', delayed', trace + [Check(pointSize)], w0);
        assert PointSteps(p, split, payloadSize) == [Check(pointSize)] + SubSteps(subs);
        assert trace + [Check(pointSize)] + SubSteps(subs) == trace + PointSteps(p, split, payloadSize);
      }
    }

    /** Send a batch: round every point, then pack the points into writes of at most
        `payloadSize` bytes, splitting the points that have a time and do not fit.
        `round` rewrites a point for a precision tag; `split` is the point library's
        `Split`. The writes issued are `Transmitted` and the result is `WriteResult`: whatever earlier writes return,
        every point is still processed and every buffered byte is still sent. */
    method Write(bp: BatchPoints, round: (string, Point) -> Point, split: (Point, int) -> seq<Point>)
      returns (err: Option<Error>)
      modifies conn
      ensures conn.writes == old(conn.writes) + Transmitted(Steps(Rounded(bp, round), split, payloadSize), payloadSize)
      ensures err == WriteResult(conn.outcome, |old(conn.writes)|, Steps(Rounded(bp, round), split, payloadSize), payloadSize)
      ensures Concat(conn.writes[|old(conn.writes)|..]) == Framed(AllPieces(Rounded(bp, round), split, payloadSize))
      ensures forall k :: |old(conn.writes)| <= k < |conn.writes| ==> Terminated(conn.writes[k])
    {
      ghost var w0 := conn.writes;
      ghost var rs := Rounded(bp, round);
      var b: seq<byte> := [];
      var delayedError: Option<Error> := None;
      var points := bp.points;
      for i := 0 to |points|
        invariant InSync(Run(Steps(rs[..i], split, payloadSize), payloadSize), w0, b, delayedError)
      {
        var p := round(bp.precision, points[i]);
        StepsSnoc(rs, i, split, payloadSize);
        assert p == rs[i];
        b, delayedError := WritePoint(p, split, b, delayedError, Steps(rs[..i], split, payloadSize), w0);
      }
      assert rs[..|points|] == rs;
      err := delayedError;
      if |b| > 0 {
        var e := conn.Write(b);
        if e.Some? {
          err := e;
        }
      }
      WriteEnds(conn.outcome, w0, conn.writes, Steps(rs, split, payloadSize), payloadSize, b, delayedError, err);
      SentAfter(w0, conn.writes, rs, split, payloadSize);
    }

    /** Queries are not supported over TCP: always an error, and no I/O. */
    method Query(q: Query) returns (resp: Option<Response>, err: Option<Error>)
      ensures resp == None && err == Some(Message(QueryUnsupported))
    {
      resp, err := None, Some(Message(QueryUnsupported));
    }

    /** Chunked queries are not supported over TCP either. */
    method QueryAsChunk(q: Query) returns (resp: Option<ChunkedResponse>, err: Option<Error>)
      ensures resp == None && err == Some(Message(QueryUnsupported))
    {
      resp, err := None, Some(Message(QueryUnsupported));
    }

    /** Pinging over TCP does nothing: zero round-trip time, an empty version and no
        error; it touches no connection. */
    method Ping(timeout: int) returns (rtt: int, version: string, err: Option<Error>)
      ensures rtt == 0 && version == "" && err == None
    {
      rtt, version, err := 0, "", None;
    }
  }
}
