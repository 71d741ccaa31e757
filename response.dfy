/**
 * The response writer: `send_404` and `send_file_response`.
 *
 * The file system is a map from path to what `open` and `fstat` find there;
 * the outcome of each `send` call on the connection is given in advance.
 * Call 0 sends the 404 response or the 200 header, call k >= 1 the k-th
 * chunk of the body.
 */
module Response {
  import opened Octets
  import opened ContentType

  const HEADER_END := Ascii("\r\n\r\n")

  const NOT_FOUND_BODY := Ascii("Not Found")
  const NOT_FOUND_THROUGH_LENGTH :=
    Ascii("HTTP/1.1 404 Not Found\r\n") + Ascii("Content-Type: text/plain; charset=utf-8\r\n") + Ascii("Content-Length: ")

  /** The fixed response of `send_404`, as its four literal lines. */
  const NOT_FOUND :=
    Ascii("HTTP/1.1 404 Not Found\r\n")
    + Ascii("Content-Type: text/plain; charset=utf-8\r\n")
    + Ascii("Content-Length: 9\r\n\r\n")
    + NOT_FOUND_BODY

  /** The length the 404 response announces is the length of its body. */
  lemma NotFoundContentLength()
    ensures NOT_FOUND == NOT_FOUND_THROUGH_LENGTH + Decimal(|NOT_FOUND_BODY|) + HEADER_END + NOT_FOUND_BODY
  {
    assert Decimal(9) == [ZERO + 9];
    assert Ascii("Content-Length: 9\r\n\r\n") == Ascii("Content-Length: ") + Decimal(9) + HEADER_END;
  }

  const OK_STATUS_LINE := Ascii("HTTP/1.1 200 OK\r\n")

  /** The 200 header up to the digits of its `Content-Length`. */
  function OkHeaderThroughLength(contentType: Bytes): Bytes {
    OK_STATUS_LINE + Ascii("Content-Type: ") + contentType + Ascii("\r\nContent-Length: ")
  }

  /** The header `sprintf` builds for a file of `size` octets. */
  function OkHeader(contentType: Bytes, size: nat): Bytes {
    OkHeaderThroughLength(contentType) + Decimal(size) + HEADER_END
  }

  /** What `open` and `fstat` find at a path that can be opened. */
  datatype Entry = Entry(statOk: bool, data: Bytes)

  /** A path missing from the map cannot be opened. */
  type FileSystem = map<Bytes, Entry>

  /** `results[i]` is whether the i-th `send` call succeeds; calls past the end succeed. */
  type SendResults = seq<bool>

  predicate SendOk(results: SendResults, call: nat) {
    call >= |results| || results[call]
  }

  predicate NoSendErrors(results: SendResults) {
    forall i :: 0 <= i < |results| ==> results[i]
  }

  /** What reaches the peer from one `send` call: all of it, or nothing on error. */
  function Transmit(bytes: Bytes, results: SendResults, call: nat): Bytes {
    if SendOk(results, call) then bytes else []
  }

  /** How many octets one `read` into the file buffer returns with `remaining` left in the file. */
  function ChunkSize(remaining: nat): nat {
    if remaining < BUFFER_SIZE then remaining else BUFFER_SIZE
  }

  /**
   * The body that reaches the peer when `data` is read and sent chunk by
   * chunk from send call `call` on: always a prefix of the file.
   */
  function BodySent(data: Bytes, results: SendResults, call: nat): (body: Bytes)
    ensures |body| <= |data| && body == data[..|body|]
    decreases |data|
  {
    if data == [] then []
    else
      var n := ChunkSize(|data|);
      if !SendOk(results, call) then []
      else
        var rest := BodySent(data[n..], results, call + 1);
        assert data[..n + |rest|] == data[..n] + data[n..][..|rest|];
        data[..n] + rest
  }

  /** A failed send cuts the body at a chunk boundary: the body is the whole file or a multiple of BUFFER_SIZE octets. */
  lemma {:induction false} BodyEndsAtChunkBoundary(data: Bytes, results: SendResults, call: nat)
    ensures var body := BodySent(data, results, call);
      |body| == |data| || |body| % BUFFER_SIZE == 0
    decreases |data|
  {
    if data != [] && SendOk(results, call) && |data| > BUFFER_SIZE {
      var rest := BodySent(data[BUFFER_SIZE..], results, call + 1);
      assert ChunkSize(|data|) == BUFFER_SIZE;
      assert |BodySent(data, results, call)| == BUFFER_SIZE + |rest|;
      BodyEndsAtChunkBoundary(data[BUFFER_SIZE..], results, call + 1);
      assert (BUFFER_SIZE + |rest|) % BUFFER_SIZE == |rest| % BUFFER_SIZE;
    }
  }

  /** Without send errors the whole file is sent. */
  lemma {:induction false} WholeFileSent(data: Bytes, results: SendResults, call: nat)
    requires NoSendErrors(results)
    ensures BodySent(data, results, call) == data
    decreases |data|
  {
    if data != [] {
      var n := ChunkSize(|data|);
      WholeFileSent(data[n..], results, call + 1);
    }
  }

  /** Everything `send_file_response` sends for `filePath`. */
  function FileResponse(fs: FileSystem, filePath: Bytes, results: SendResults): Bytes {
    if filePath !in fs || !fs[filePath].statOk then Transmit(NOT_FOUND, results, 0)
    else
      var data := fs[filePath].data;
      Transmit(OkHeader(ContentTypeOf(filePath), |data|), results, 0) + BodySent(data, results, 1)
  }

  /** `read(file_fd, file_buffer, BUFFER_SIZE)` on a file whose offset is `offset`. */
  method ReadChunk(buffer: array<byte>, data: Bytes, offset: nat) returns (n: nat)
    requires buffer.Length == BUFFER_SIZE && offset <= |data|
    modifies buffer
    ensures n == ChunkSize(|data| - offset) && offset + n <= |data|
    ensures buffer[..n] == data[offset..offset + n]
  {
    n := ChunkSize(|data| - offset);
    forall i | 0 <= i < n {
      buffer[i] := data[offset + i];
    }
  }

  /** One more chunk sent: the body sent so far grows by that chunk. */
  lemma BodySentStep(data: Bytes, results: SendResults, call: nat, offset: nat, total: Bytes)
    requires offset < |data| && SendOk(results, call)
    requires total == data[..offset] + BodySent(data[offset..], results, call)
    ensures var n := ChunkSize(|data| - offset);
      offset + n <= |data|
      && total == data[..offset + n] + BodySent(data[offset + n..], results, call + 1)
  {
    var n := ChunkSize(|data| - offset);
    assert data[offset..][n..] == data[offset + n..];
    assert data[..offset + n] == data[..offset] + data[offset..offset + n];
  }

  /** Nothing more is sent at end of file or once a send fails. */
  lemma BodySentStops(data: Bytes, results: SendResults, call: nat, offset: nat)
    requires offset <= |data|
    requires offset == |data| || !SendOk(results, call)
    ensures BodySent(data[offset..], results, call) == []
  {
  }

  /**
   * The copy loop of `send_file_response`: `read` into the file buffer until
   * it returns 0, sending each chunk and stopping at the first failed `send`.
   */
  method SendBody(data: Bytes, results: SendResults) returns (sent: Bytes)
    ensures sent == BodySent(data, results, 1)
  {
    var buffer := new byte[BUFFER_SIZE];
    ghost var total := BodySent(data, results, 1);
    var offset, call := 0, 1;
    sent := [];
    while true
      invariant offset <= |data| && call >= 1
      invariant sent == data[..offset]
      invariant total == sent + BodySent(data[offset..], results, call)
      decreases |data| - offset
    {
      var n := ReadChunk(buffer, data, offset);
      if n == 0 || !SendOk(results, call) {
        BodySentStops(data, results, call, offset);
        break;
      }
      BodySentStep(data, results, call, offset, total);
      sent := sent + buffer[..n];
      offset, call := offset + n, call + 1;
    }
  }

  /** What happens to the file descriptor, in order: `open` succeeding, and `close`. */
  datatype FileEvent = Opened | Closed

  /** Every descriptor that is opened is closed again, and nothing happens to it afterwards. */
  predicate ClosedAfterUse(events: seq<FileEvent>) {
    events == [] || events == [Opened, Closed]
  }

  /**
   * `send_file_response`: a failed `open` or `fstat` sends the 404 response;
   * otherwise the header, then the body. `events` records the descriptor's
   * `open` and `close` where the code makes them.
   */
  method SendFileResponse(fs: FileSystem, filePath: Bytes, results: SendResults)
    returns (out: Bytes, events: seq<FileEvent>)
    ensures out == FileResponse(fs, filePath, results)
    ensures events == if filePath in fs then [Opened, Closed] else []
    ensures ClosedAfterUse(events)
  {
    events := [];
    if filePath !in fs {
      out := Transmit(NOT_FOUND, results, 0);
      return;
    }
    events := events + [Opened];
    var entry := fs[filePath];
    if !entry.statOk {
      events := events + [Closed];
      out := Transmit(NOT_FOUND, results, 0);
      return;
    }
    var header := OkHeader(ContentTypeOf(filePath), |entry.data|);
    out := Transmit(header, results, 0);
    var body := SendBody(entry.data, results);
    out := out + body;
    events := events + [Closed];
  }

  /** A 200 header followed by anything differs from the 404 response in the status code. */
  lemma OkReplyIsNotNotFound(contentType: Bytes, size: nat, body: Bytes)
    ensures OkHeader(contentType, size) + body != NOT_FOUND
  {
    var statusLine := Ascii("HTTP/1.1 404 Not Found\r\n");
    var h := OkHeader(contentType, size);
    assert OkHeaderThroughLength(contentType)[9] == OK_STATUS_LINE[9] == ZERO + 2;
    assert h[9] == OK_STATUS_LINE[9];
    assert (h + body)[9] == h[9];
    assert NOT_FOUND[9] == statusLine[9] == ZERO + 4;
  }

  /** With no send error, the reply is the fixed 404 response exactly when the file cannot be opened or stat'ed. */
  lemma NotFoundExactlyOnFailure(fs: FileSystem, filePath: Bytes, results: SendResults)
    requires NoSendErrors(results)
    ensures FileResponse(fs, filePath, results) == NOT_FOUND <==> filePath !in fs || !fs[filePath].statOk
  {
    if filePath in fs && fs[filePath].statOk {
      var data := fs[filePath].data;
      OkReplyIsNotNotFound(ContentTypeOf(filePath), |data|, BodySent(data, results, 1));
    }
  }

  /**
   * With no send error, a file that opens yields its 200 header followed by
   * exactly its octets, and the digits after "Content-Length: " read back
   * as the number of octets after the blank line.
   */
  lemma ContentLengthMatchesBody(fs: FileSystem, filePath: Bytes, results: SendResults)
    requires filePath in fs && fs[filePath].statOk && NoSendErrors(results)
    ensures var data := fs[filePath].data;
      FileResponse(fs, filePath, results)
        == OkHeaderThroughLength(ContentTypeOf(filePath)) + Decimal(|data|) + HEADER_END + data
      && DecimalValue(Decimal(|data|)) == |data|
  {
    WholeFileSent(fs[filePath].data, results, 1);
    DecimalRoundTrip(|fs[filePath].data|);
  }

  /**
   * Whatever the sends do, a file that opens yields its header (or nothing,
   * if that send failed) followed by a prefix of the file that is the whole
   * file or ends at a chunk boundary.
   */
  lemma SendErrorLeavesPrefix(fs: FileSystem, filePath: Bytes, results: SendResults)
    requires filePath in fs && fs[filePath].statOk
    ensures var data := fs[filePath].data;
      var head := Transmit(OkHeader(ContentTypeOf(filePath), |data|), results, 0);
      var r := FileResponse(fs, filePath, results);
      |head| <= |r| && r[..|head|] == head
      && |r| - |head| <= |data| && r[|head|..] == data[..|r| - |head|]
      && (|r| - |head| == |data| || (|r| - |head|) % BUFFER_SIZE == 0)
  {
    var data := fs[filePath].data;
    var head := Transmit(OkHeader(ContentTypeOf(filePath), |data|), results, 0);
    var body := BodySent(data, results, 1);
    BodyEndsAtChunkBoundary(data, results, 1);
    assert FileResponse(fs, filePath, results) == head + body;
  }
}
