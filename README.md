# TCP batching writer of the InfluxDB 1.x client, in Dafny

This project models the TCP transport of the InfluxDB 1.x Go client (`v2/tcp.go`).
The client takes a batch of points. It rounds each point to the batch's precision. It
serializes the point in line protocol, followed by a newline. It packs the serialized
points into an in-memory buffer and writes the buffer to a TCP connection before the
next piece would push it past the payload size. A point that has a time and does not
fit on its own is split into sub-points, each at most `payloadSize - 1` bytes. A failed
intermediate write does not stop the call: its error is remembered as the delayed
error, and every remaining point is still processed. The final flush's error, when there
is one, wins over the delayed error. Queries are refused, and a ping does nothing.

Modules:

- `Wrappers`: `Option` (Go's nil-or-value) and `Error`.
- `LineProtocol`: bytes, a `Point` as its serialized bytes plus whether its time is
  zero, and the wire framing. `Framed` appends a newline after each piece. `Lines` is
  the reader's side: it cuts a byte stream at each newline.
- `Batching`: the pure specification of one `Write` call, as a state machine over the
  buffer and the writes issued. `Run`, `Transmitted` and `WriteResult` define the
  writes and the returned error. `AllPieces` is an independent reference definition of
  what is sent. The lemmas connect the two and state the properties below.
- `Tcp`: the imperative part.
  - `Conn` stands for the connection. It records every write attempted on it.
  - `TcpClient` holds the fields `conn` and `payloadSize`.
  - `Write` is a loop that updates the buffer and the delayed error, as the Go code
    does. It is proved to issue exactly `Transmitted(...)` and to return
    `WriteResult(...)`.
  - `Query`, `QueryAsChunk` and `Ping` are the stubs.

Parameters stand for the parts that live outside this file:

- The connection's outcome for its `k`-th write is `Conn.outcome(k)`. It is fixed when
  the connection is created, so a failure is any error the network could give.
- `round` is the point library's rounding to a precision tag.
- `split` is the point library's `Split(limit)`.

Properties that depend on what `Split` guarantees are lemmas that take that guarantee as
a hypothesis. `Write` itself demands nothing of `split` or `round`. It also places no
requirement on `payloadSize`. The Go code does depend on it: a negative payload size
makes the call panic when the buffer is allocated (`v2/tcp.go:63`), and the model does
not capture that panic (see "## Left out").

On which error `Write` returns, the code (`v2/tcp.go:69-72`) overwrites the delayed
error on every failed intermediate flush. So when several intermediate flushes fail, the
error returned is the one from the LAST failure, not the first. The model follows the
code: `LastFailure`, and the `ResultRule` lemma.

## Model

| member | source | states |
|---|---|---|
| `Tcp.PayloadSizeFor` | v2/tcp.go:41-44 | A configured payload size of 0 becomes the default 512; any other value, negative ones included, is kept; the result is never 0. |
| `Tcp.TcpClient.NewTCPClient` | v2/tcp.go:41-49 | The client keeps the given connection and uses the same payload size as `PayloadSizeFor` gives for the configuration. |
| `Tcp.Rounded` | v2/tcp.go:77-78 | The points the loop works on are the batch's points, each rounded to the batch precision, in the same order and number. |
| `Tcp.Conn.Write` | v2/tcp.go:70 | A write on the connection is appended to its log, and its outcome is the one the connection has for that write number. |
| `Tcp.TcpClient.CheckBuffer` | v2/tcp.go:68-75 | The buffer is written out only when it is non-empty and `n` more bytes would exceed the payload size. A failure of that write becomes the delayed error, and a success keeps the earlier one. The buffer is emptied either way. Otherwise nothing changes. |
| `Tcp.TcpClient.AppendSubPoints` | v2/tcp.go:90-95 | Each sub-point, in order, gets its own buffer check for its size plus the newline, then is appended with a newline; the connection and buffer end in the state the specification machine reaches. |
| `Tcp.TcpClient.WritePoint` | v2/tcp.go:79-95 | One point: a buffer check for its size plus newline, then the point is appended whole if its time is zero or it fits, else it is split at `payloadSize - 1` and its sub-points are appended; the state agrees with the specification machine. |
| `Tcp.TcpClient.Write` | v2/tcp.go:62-104 | The writes issued are exactly `Transmitted` of the batch's steps. The error returned is `WriteResult`. The bytes sent are the rounded batch's reference pieces, each followed by a newline, in order. Every write issued ends with a newline. |
| `Tcp.TcpClient.Query` | v2/tcp.go:106-108 | Returns no response and the error "Querying via TCP is not supported". |
| `Tcp.TcpClient.QueryAsChunk` | v2/tcp.go:110-112 | Returns no response and the error "Querying via TCP is not supported". |
| `Tcp.TcpClient.Ping` | v2/tcp.go:114-116 | Returns a zero round-trip time, an empty version and no error. |
| `Batching.BatchSentInOrder` | v2/tcp.go:77-102 | The writes of a call, laid end to end, are the reference pieces, each followed by a newline: every point is sent once and in order, and a split point's sub-points are sent in order. When the pieces contain no newline, a reader splitting the stream at newlines gets back exactly those pieces. |
| `Batching.TransmittedFramed` | v2/tcp.go:68-102 | Every write of a call is non-empty and ends with a newline, so no record is cut between two writes. |
| `Batching.TransmittedBounded` | v2/tcp.go:68-102 | When every appended piece fits in the payload size with its newline, every write is at most the payload size. |
| `Batching.WritesWithinPayload` | v2/tcp.go:82-95 | When every zero-time point fits and `Split` keeps its sub-points within `payloadSize - 1` bytes, every write of the call is at most the payload size. |
| `Batching.OversizedZeroTimeExceeds` | v2/tcp.go:84-87 | Wherever a zero-time point that does not fit stands in a batch, it is never split. After it is appended, the buffer holds exactly its bytes and newline. One write of the call is exactly that line, longer than the payload size. |
| `Batching.BufferSentAlone` | v2/tcp.go:68-102 | A buffer already over the payload size is sent alone as the next write: the following point's check flushes it, or else the final flush does. |
| `Batching.RunKeepsWrites` | v2/tcp.go:68-102 | Writes already issued in a call stay in place: later points only add writes after them. |
| `Batching.SplitOnlyWhenOversized` | v2/tcp.go:84-90 | `Split` is consulted only for points that have a time and do not fit, and only with limit `payloadSize - 1`: two splitters that agree there give identical writes. |
| `Batching.WholePointsUnsplit` | v2/tcp.go:84-87 | A batch whose points all have zero time or fit is sent point by point, whole. |
| `Batching.SplitStartsEmpty` | v2/tcp.go:68-82 | Before a point is split, the check for its full size empties the buffer, and whatever the buffer held becomes one more write. |
| `Batching.PointPiecesJoin` | v2/tcp.go:84-95 | When `Split` partitions a point's bytes, the pieces sent for that point join back into its bytes, whether it was split or not. |
| `Batching.ThreeTenBytePoints` | v2/tcp.go:68-102 | Payload 20, three 10-byte points with a time: three writes of 11 bytes, each point's line in batch order, because each later point overflows the buffer that holds the one before. |
| `Batching.ThreeTenBytePointsFirstFlushFails` | v2/tcp.go:66-103 | Same batch: when the first flush fails and the others succeed, the call still makes all three writes, the three lines in order, and returns the first flush's error. |
| `Batching.ResultRule` | v2/tcp.go:66-103 | A failed final flush's error is returned. Otherwise the result is nil exactly when no intermediate flush failed. When it is not nil, it is the error of an intermediate flush after which no other flush failed. |
| `Batching.LastFailureNone` | v2/tcp.go:66-72 | No error is remembered exactly when every intermediate write succeeded. |
| `Batching.LastFailureIsLatest` | v2/tcp.go:70-72 | The remembered error is one that occurred, and no later write failed. |
| `Batching.Outcomes` | v2/tcp.go:70-72 | The outcomes of a run of writes are the connection's outcomes for those write numbers, in order. |
| `LineProtocol.LinesOfFramed` | v2/tcp.go:85-94 | Cutting the framed stream of newline-free pieces at each newline gives back exactly those pieces. |
| `LineProtocol.BytesOf` | v2/tcp.go:85-93 | The serialized forms of the points, one per point, in order. |

## Left out

- Resolving the address and dialing (`v2/tcp.go:29-39`): network I/O. The client is built over a `Conn` that is already open, and the two construction errors are not modelled.
- `Close` (`v2/tcp.go:53-55`): it only closes the connection.
- Short writes and byte counts: the count that `conn.Write` returns is ignored by the code, and the model treats every write as all-or-nothing.
- Pre-allocating the buffer's capacity (`v2/tcp.go:63`) is not modelled. For a payload size of 0 or more, it has no observable effect.
- Tcp.TcpClient.Write: a negative payload size, which `NewTCPClient` keeps, makes the Go call panic at `v2/tcp.go:63` before any point is processed. The model's `Write` does not panic: it proceeds as for any other size, issuing writes and calling `split` with limit `payloadSize - 1`.
- `time.ParseDuration` and `Point.Round` (`v2/tcp.go:64, 78`) are left to the `round` parameter. The model does not capture that `Round` rewrites the caller's points in place. An unknown precision makes `ParseDuration` fail silently with a zero duration; that is `round`'s business here.
- `Point.StringSize`, `Point.AppendString` and `Point.Split` live in the points package, which is not part of this model. A point is its serialized bytes. `split` is a parameter, and what it is assumed to guarantee is a hypothesis of the lemmas that need it.
- `Tcp.TcpClient.Write`: its contract does not list the `Split` calls it makes. `Batching.SplitOnlyWhenOversized` states which points and which limit `Split` is applied to.
- Go's `int` is 64-bit. Sizes here are unbounded integers, because no realistic buffer reaches the wrap-around.
- Concurrency: `Write` is single-caller, and connection writes block. Neither is modelled.
- Each pass of the point loop is factored into `WritePoint` and `AppendSubPoints`, and the `checkBuffer` closure is a method `CheckBuffer` that receives and returns the buffer and the delayed error, because Dafny has no closures over mutable locals.
