/** The serialized form of points as the batching writer sees it: a point is its
    line-protocol bytes (without the terminating newline) and whether its time is zero.
    How those bytes are produced is not part of this model. */
module LineProtocol {

  newtype byte = x: int | 0 <= x < 256

  /** The record separator appended after every point, `'\n'`. */
  const Newline: byte := 10

  /** A point after rounding: `bytes` is what `AppendString` appends (so `StringSize()`
      is `|bytes|`), `zeroTime` is `Time().IsZero()`. */
  datatype Point = Point(bytes: seq<byte>, zeroTime: bool)

  /** The serialized forms of a sequence of points, in order. */
  function BytesOf(points: seq<Point>): (r: seq<seq<byte>>)
    ensures |r| == |points|
    ensures forall i :: 0 <= i < |points| ==> r[i] == points[i].bytes
  {
    seq(|points|, i requires 0 <= i < |points| => points[i].bytes)
  }

  /** The bytes of several chunks laid end to end. */
  function Concat(chunks: seq<seq<byte>>): seq<byte>
  {
    if chunks == [] then [] else chunks[0] + Concat(chunks[1..])
  }

  /** Each piece followed by a newline, laid end to end: the wire form of a run of points. */
  function Framed(pieces: seq<seq<byte>>): seq<byte>
  {
    if pieces == [] then [] else pieces[0] + [Newline] + Framed(pieces[1..])
  }

  lemma {:induction false} ConcatSnoc(chunks: seq<seq<byte>>, last: seq<byte>)
    ensures Concat(chunks + [last]) == Concat(chunks) + last
  {
    if chunks == [] {
      assert [last][1..] == [];
    } else {
      assert (chunks + [last])[1..] == chunks[1..] + [last];
      ConcatSnoc(chunks[1..], last);
    }
  }

  lemma {:induction false} FramedSnoc(pieces: seq<seq<byte>>, last: seq<byte>)
    ensures Framed(pieces + [last]) == Framed(pieces) + last + [Newline]
  {
    if pieces == [] {
      assert [last][1..] == [];
    } else {
      assert (pieces + [last])[1..] == pieces[1..] + [last];
      FramedSnoc(pieces[1..], last);
    }
  }

  /** The reader's side of the wire: cut a byte stream at every newline. `current` is
      the line read so far; a trailing line without its newline is kept as well. */
  function LinesFrom(s: seq<byte>, current: seq<byte>): seq<seq<byte>>
    decreases |s|
  {
    if s == [] then (if current == [] then [] else [current])
    else if s[0] == Newline then [current] + LinesFrom(s[1..], [])
    else LinesFrom(s[1..], current + [s[0]])
  }

  function Lines(s: seq<byte>): seq<seq<byte>>
  {
    LinesFrom(s, [])
  }

  lemma {:induction false} LinesOfLine(line: seq<byte>, rest: seq<byte>, current: seq<byte>)
    requires Newline !in line
    ensures LinesFrom(line + [Newline] + rest, current) == [current + line] + LinesFrom(rest, [])
  {
    var s := line + [Newline] + rest;
    if line == [] {
      assert s == [Newline] + rest;
      assert s[1..] == rest;
      assert current + line == current;
    } else {
      assert s[0] == line[0] && line[0] != Newline;
      assert s[1..] == line[1..] + [Newline] + rest;
      LinesOfLine(line[1..], rest, current + [line[0]]);
      assert current + [line[0]] + line[1..] == current + line;
    }
  }

  /** Reading back the wire form of newline-free pieces gives exactly those pieces. */
  lemma {:induction false} LinesOfFramed(pieces: seq<seq<byte>>)
    requires forall i :: 0 <= i < |pieces| ==> Newline !in pieces[i]
    ensures Lines(Framed(pieces)) == pieces
  {
    if pieces != [] {
      LinesOfLine(pieces[0], Framed(pieces[1..]), []);
      assert [] + pieces[0] == pieces[0];
      LinesOfFramed(pieces[1..]);
      assert [pieces[0]] + pieces[1..] == pieces;
    }
  }
}
