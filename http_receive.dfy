/**
 * `KeepAliveRequests.receive_from_socket`: the loop that assembles one
 * response from successive socket reads.
 *
 * The socket is the sequence of segments the peer will deliver, in order.
 * `sock.recv(n)` returns at most `n` characters of the next segment and
 * leaves the remainder of that segment for the next call; once the
 * sequence is used up the peer has closed the connection and every
 * `recv` returns "". `Receive` is the reader as a function of that
 * sequence; `ReceiveFromSocket` is the loop itself, proved equal to it.
 */
module HttpReceive {
  import opened Common
  import opened Text
  import opened Numerals
  import opened HttpMessage

  /** Characters still to come, plus one for each segment: what every non-empty read uses up. */
  function Size(stream: seq<string>): nat
  {
    if stream == [] then 0 else |stream[0]| + 1 + Size(stream[1..])
  }

  /** All characters still to come, in order. */
  function Flatten(stream: seq<string>): string
  {
    if stream == [] then "" else stream[0] + Flatten(stream[1..])
  }

  /** What one `recv` returned, and the segments left after it. */
  datatype Read = Read(data: string, rest: seq<string>)

  /**
   * `sock.recv(n)` for `n >= 0`. An empty segment is read as an empty read
   * after which more may follow; a socket never delivers that, since `recv`
   * returns "" only once the peer has closed, but every statement here holds
   * for all sequences of segments and so for the ones a socket delivers.
   */
  function Recv(stream: seq<string>, n: nat): (r: Read)
    ensures |r.data| <= n
    ensures r.data + Flatten(r.rest) == Flatten(stream)
    ensures Size(r.rest) <= Size(stream)
    ensures r.data != "" ==> Size(r.rest) < Size(stream)
  {
    if n == 0 || stream == [] then Read("", stream)
    else if |stream[0]| <= n then Read(stream[0], stream[1..])
    else
      var head, tail := stream[0][..n], [stream[0][n..]] + stream[1..];
      assert tail[1..] == stream[1..];
      assert stream[0] == head + stream[0][n..];
      Read(head, tail)
  }

  /** The reader's local variables between two reads. */
  datatype Reader = Reader(
    buffer: string,
    parsedHeaders: bool,
    isChunked: bool,
    length: int,
    expected: Option<int>,     // expected_length; None until the head is parsed
    headers: map<string, string>,
    statusCode: int)           // meaningful once the head is parsed

  const Start: Reader := Reader("", false, false, 0, None, map[], 0)

  /** The expected length is set exactly when the head has been parsed. */
  predicate Framed(r: Reader)
  {
    r.parsedHeaders <==> r.expected.Some?
  }

  /** How assembling a response ends: a response, an exception, or a read loop that never ends. */
  datatype Received = Done(response: Response) | Failed(error: ProtocolError) | Stuck

  /** One pass of the outer loop: go on with a new reader, or leave with a result. */
  datatype Step = Next(reader: Reader, rest: seq<string>) | Stop(result: Received, rest: seq<string>)

  /** The size asked of `recv`: 1024 before the head, `expected_length - len(buffer)` after it. */
  function ReadSize(r: Reader): int
  {
    match r.expected
    case None => 1024
    case Some(e) => e - |r.buffer|
  }

  /** The framing chosen once the head is parsed, and the post-head data it leaves. */
  datatype Framing = Framing(isChunked: bool, expected: int, data: string)

  /** `headers.get('Transfer-Encoding', "") == "chunked"`. */
  predicate IsChunked(headers: map<string, string>)
  {
    "Transfer-Encoding" in headers && headers["Transfer-Encoding"] == "chunked"
  }

  /** Chunked when `Transfer-Encoding` is exactly "chunked", otherwise the integer `Content-Length`. */
  function Frame(head: Head): Result<Framing, ProtocolError>
  {
    if IsChunked(head.headers) then
      var lines := Split(head.data, CRLF);
      match ParseHex(lines[0])
      case None => Err(BadChunkSize)
      case Some(size) => Ok(Framing(true, size, Join(lines[1..], "")))
    else if "Content-Length" !in head.headers then Err(MissingContentLength)
    else
      match ParseDecimal(head.headers["Content-Length"])
      case None => Err(BadContentLength)
      case Some(n) => Ok(Framing(false, n, head.data))
  }

  /**
   * A head that is not chunked and carries the length a server writes out
   * in decimal is framed by that length, keeping the post-head data whole.
   */
  lemma FrameFixed(head: Head, n: nat)
    requires !IsChunked(head.headers) && "Content-Length" in head.headers
    requires head.headers["Content-Length"] == ToDecimal(n)
    ensures Frame(head) == Ok(Framing(false, n, head.data))
  {
    DecimalRoundTrip(n);
  }

  /**
   * Framing fails exactly when a chunked head's first data line is not
   * hexadecimal, or an unchunked head has no `Content-Length` or a
   * non-decimal one, and each failure is reported as its own error.
   */
  lemma FrameFails(head: Head)
    ensures Frame(head).Err? <==>
      if IsChunked(head.headers) then !IsHex(Split(head.data, CRLF)[0])
      else "Content-Length" !in head.headers || !IsDecimal(head.headers["Content-Length"])
    ensures Frame(head).Err? ==>
      Frame(head).error ==
        if IsChunked(head.headers) then BadChunkSize
        else if "Content-Length" !in head.headers then MissingContentLength
        else BadContentLength
  {
  }

  /** `CRLF` starts at index `i` of `s`. */
  predicate CrlfAt(s: string, i: nat)
  {
    i + 2 <= |s| && s[i] == '\r' && s[i + 1] == '\n'
  }

  /** `s[i..j+2]` is CRLF, one or more characters other than LF, CRLF. */
  predicate LineBetween(s: string, i: nat, j: nat)
  {
    i + 2 < j && CrlfAt(s, i) && CrlfAt(s, j) && forall k :: i + 2 <= k < j ==> s[k] != '\n'
  }

  /** `re.search('\r\n.+\r\n', s) is not None`. */
  predicate HasSizeLine(s: string)
  {
    exists j: nat, i: nat | j <= |s| && i < j :: LineBetween(s, i, j)
  }

  /**
   * The inner loop that reads one character at a time until the text read
   * holds a chunk-size line. None when the peer has closed the connection
   * first: every later `recv(1)` returns "" and the loop never ends.
   */
  function ReadSizeLine(acc: string, stream: seq<string>): (r: Option<Read>)
    decreases Size(stream)
    ensures r.Some? ==> Size(r.value.rest) < Size(stream)
  {
    if stream == [] then None
    else
      var rd := Recv(stream, 1);
      var acc' := acc + rd.data;
      if HasSizeLine(acc') then Some(Read(acc', rd.rest)) else ReadSizeLine(acc', rd.rest)
  }

  /** The part of one pass that follows the head: count the data, then stop or go on. */
  function Accept(r: Reader, data: string, stream: seq<string>): (s: Step)
    requires r.parsedHeaders && r.expected.Some?
    ensures s.Next? ==> Framed(s.reader) && Size(s.rest) <= Size(stream)
  {
    var length := r.length + |data|;
    if data == "" then Stop(Done(Response(r.buffer, r.statusCode, r.headers)), stream)
    else if length >= r.expected.value then
      if !r.isChunked then
        Stop(Done(Response(r.buffer + data, r.statusCode, r.headers)), stream)
      else if Contains(data, Separator) then
        var last := Split(Split(data, Separator)[0], CRLF)[0];
        Stop(Done(Response(r.buffer + last, r.statusCode, r.headers)), stream)
      else NextChunk(r.(length := length), data, stream)
    else Next(r.(buffer := r.buffer + data, length := length), stream)
  }

  /** A chunk is complete and the data holds no blank line: read the next chunk-size line. */
  function NextChunk(r: Reader, data: string, stream: seq<string>): (s: Step)
    requires r.parsedHeaders && r.expected.Some?
    ensures s.Next? ==> Framed(s.reader) && Size(s.rest) <= Size(stream)
  {
    match ReadSizeLine("", stream)
    case None => Stop(Stuck, [])
    case Some(line) =>
      match ParseHex(Replace(line.data, CRLF, ""))
      case None => Stop(Failed(BadChunkSize), line.rest)
      case Some(size) =>
        if size == 0 then Stop(Done(Response(r.buffer, r.statusCode, r.headers)), line.rest)
        else Next(r.(buffer := r.buffer + data, expected := Some(size)), line.rest)
  }

  /** The first read long enough to hold a head: parse it and choose the framing. */
  function OnHead(r: Reader, data: string, stream: seq<string>): (s: Step)
    requires !r.parsedHeaders
    ensures s.Next? ==> Framed(s.reader) && Size(s.rest) <= Size(stream)
  {
    match ParsedHeaders(data)
    case Err(e) => Stop(Failed(e), stream)
    case Ok(head) =>
      if head.statusCode == 500 then Stop(Done(Response(r.buffer, 500, head.headers)), stream)
      else
        match Frame(head)
        case Err(e) => Stop(Failed(e), stream)
        case Ok(f) =>
          var parsed := r.(parsedHeaders := true, isChunked := f.isChunked, expected := Some(f.expected),
                           headers := head.headers, statusCode := head.statusCode);
          Accept(parsed, f.data, stream)
  }

  /** What one pass does with the text a read returned. */
  function OnRead(r: Reader, data: string, stream: seq<string>): (s: Step)
    requires Framed(r)
    ensures s.Next? ==> Framed(s.reader) && Size(s.rest) <= Size(stream)
  {
    if |data| == 0 then Stop(Done(Synthetic500), stream)
    else if |data| <= 2 then Next(r, stream)
    else if !r.parsedHeaders then OnHead(r, data, stream)
    else Accept(r, data, stream)
  }

  /** One pass of the outer `while True` loop. */
  function StepOf(r: Reader, stream: seq<string>): (s: Step)
    requires Framed(r)
    ensures s.Next? ==> Framed(s.reader) && Size(s.rest) < Size(stream)
  {
    var n := ReadSize(r);
    if n < 0 then Stop(Failed(NegativeRead), stream)
    else
      var rd := Recv(stream, n);
      OnRead(r, rd.data, rd.rest)
  }

  /** The loop run from a given reader to its end, with the segments left unread. */
  function Assemble(r: Reader, stream: seq<string>): (Received, seq<string>)
    requires Framed(r)
    decreases Size(stream)
  {
    match StepOf(r, stream)
    case Stop(result, rest) => (result, rest)
    case Next(r', rest) => Assemble(r', rest)
  }

  /** `receive_from_socket()` on a connection that will deliver `stream`. */
  function Receive(stream: seq<string>): (Received, seq<string>)
  {
    Assemble(Start, stream)
  }

  /**
   * The inner loop of the chunked branch: `recv(1)` until the text read holds
   * a chunk-size line. None when the stream runs out first, where the
   * source's loop spins forever on empty reads.
   */
  method ReadChunkSizeLine(input: seq<string>) returns (line: Option<Read>)
    ensures line == ReadSizeLine("", input)
  {
    var sock := input;
    var chunkedData := "";
    while true
      invariant ReadSizeLine(chunkedData, sock) == ReadSizeLine("", input)
      decreases Size(sock)
    {
      if sock == [] {
        return None;
      }
      var temp := Recv(sock, 1);
      chunkedData := chunkedData + temp.data;
      sock := temp.rest;
      if HasSizeLine(chunkedData) {
        return Some(Read(chunkedData, sock));
      }
    }
  }

  /** A pass that stops ends the loop with its result. */
  lemma AssembleStop(r: Reader, stream: seq<string>)
    requires Framed(r) && StepOf(r, stream).Stop?
    ensures Assemble(r, stream) == (StepOf(r, stream).result, StepOf(r, stream).rest)
  {
  }

  /** A pass that goes on leaves the rest of the loop to the new reader. */
  lemma AssembleNext(r: Reader, stream: seq<string>)
    requires Framed(r) && StepOf(r, stream).Next?
    ensures Assemble(r, stream) == Assemble(StepOf(r, stream).reader, StepOf(r, stream).rest)
  {
  }

  /**
   * The part of one pass that follows the head, from the length count to
   * the end of the loop body: count the data, then stop or go on.
   */
  method AcceptRead(r: Reader, data: string, sock: seq<string>) returns (step: Step)
    requires r.parsedHeaders && r.expected.Some?
    ensures step == Accept(r, data, sock)
  {
    var length := r.length + |data|;
    if data == "" {
      return Stop(Done(Response(r.buffer, r.statusCode, r.headers)), sock);
    }
    if length >= r.expected.value {
      if !r.isChunked {
        return Stop(Done(Response(r.buffer + data, r.statusCode, r.headers)), sock);
      } else if Contains(data, Separator) {
        var last := Split(Split(data, Separator)[0], CRLF)[0];
        return Stop(Done(Response(r.buffer + last, r.statusCode, r.headers)), sock);
      }
      var line := ReadChunkSizeLine(sock);
      if line.None? {
        return Stop(Stuck, []);
      }
      var size := ParseHex(Replace(line.value.data, CRLF, ""));
      if size.None? {
        return Stop(Failed(BadChunkSize), line.value.rest);
      }
      if size.value == 0 {
        return Stop(Done(Response(r.buffer, r.statusCode, r.headers)), line.value.rest);
      }
      return Next(r.(buffer := r.buffer + data, length := length, expected := Some(size.value)), line.value.rest);
    }
    return Next(r.(buffer := r.buffer + data, length := length), sock);
  }

  /** One pass of the outer `while True` loop of `receive_from_socket`, on the reader's variables. */
  method Pass(r: Reader, sock: seq<string>) returns (step: Step)
    requires Framed(r)
    ensures step == StepOf(r, sock)
  {
    var n := if r.expected.None? then 1024 else r.expected.value - |r.buffer|;
    if n < 0 {
      return Stop(Failed(NegativeRead), sock);
    }
    var rd := Recv(sock, n);
    var data := rd.data;
    if |data| == 0 {
      return Stop(Done(Synthetic500), rd.rest);
    } else if |data| <= 2 {
      return Next(r, rd.rest);
    }
    if r.parsedHeaders {
      step := AcceptRead(r, data, rd.rest);
      return;
    }
    var parsed := ParseHeaders(data);
    if parsed.Err? {
      return Stop(Failed(parsed.error), rd.rest);
    }
    var headers, statusCode := parsed.value.headers, parsed.value.statusCode;
    data := parsed.value.data;
    if statusCode == 500 {
      return Stop(Done(Response(r.buffer, statusCode, headers)), rd.rest);
    }
    var isChunked := false;
    var expectedLength: int;
    if IsChunked(headers) {
      isChunked := true;
      var lines := Split(data, CRLF);
      var size := ParseHex(lines[0]);
      if size.None? {
        return Stop(Failed(BadChunkSize), rd.rest);
      }
      expectedLength := size.value;
      data := Join(lines[1..], "");
    } else {
      if "Content-Length" !in headers {
        return Stop(Failed(MissingContentLength), rd.rest);
      }
      var contentLength := ParseDecimal(headers["Content-Length"]);
      if contentLength.None? {
        return Stop(Failed(BadContentLength), rd.rest);
      }
      expectedLength := contentLength.value;
    }
    assert Frame(parsed.value) == Ok(Framing(isChunked, expectedLength, data));
    var parsedReader := r.(parsedHeaders := true, isChunked := isChunked, expected := Some(expectedLength),
                           headers := headers, statusCode := statusCode);
    step := AcceptRead(parsedReader, data, rd.rest);
  }

  /** `receive_from_socket`: passes of the loop until one of them stops. */
  method ReceiveFromSocket(input: seq<string>) returns (result: Received, rest: seq<string>)
    ensures (result, rest) == Receive(input)
  {
    var reader := Start;
    var sock := input;
    while true
      invariant Framed(reader)
      invariant Assemble(reader, sock) == Receive(input)
      decreases Size(sock)
    {
      var step := Pass(reader, sock);
      match step
      case Stop(res, left) =>
        AssembleStop(reader, sock);
        return res, left;
      case Next(reader', left) =>
        AssembleNext(reader, sock);
        reader, sock := reader', left;
    }
  }

  /**
   * A read that returns nothing, at any point of the loop, ends it with a
   * synthetic 500 response; whatever was assembled so far is dropped.
   */
  lemma ZeroLengthRead(r: Reader, stream: seq<string>)
    requires Framed(r) && ReadSize(r) >= 0
    requires stream == [] || stream[0] == "" || ReadSize(r) == 0
    ensures Assemble(r, stream).0 == Done(Synthetic500)
    ensures Synthetic500.text == "" && Synthetic500.statusCode == 500 && Synthetic500.headers == map[]
  {
    AssembleStop(r, stream);
  }

  /** A connection that is already closed yields the synthetic 500 response. */
  lemma ClosedConnection()
    ensures Receive([]) == (Done(Synthetic500), [])
  {
    ZeroLengthRead(Start, []);
  }

  /**
   * Reads of one or two characters are dropped and leave every variable of
   * the reader as it was, before the head and inside a body alike.
   */
  lemma {:induction false} ShortReadsIgnored(r: Reader, shorts: seq<string>, rest: seq<string>)
    requires Framed(r)
    requires forall k :: 0 <= k < |shorts| ==> 1 <= |shorts[k]| <= 2 && |shorts[k]| <= ReadSize(r)
    ensures Assemble(r, shorts + rest) == Assemble(r, rest)
    decreases |shorts|
  {
    if shorts == [] {
      assert shorts + rest == rest;
    } else {
      var s := shorts + rest;
      var tail := shorts[1..] + rest;
      assert s[0] == shorts[0] && s[1..] == tail;
      assert Recv(s, ReadSize(r)) == Read(shorts[0], tail);
      assert OnRead(r, shorts[0], tail) == Next(r, tail);
      AssembleNext(r, s);
      assert Assemble(r, s) == Assemble(r, tail);
      ShortReadsIgnored(r, shorts[1..], rest);
    }
  }

  /** The first segment of a stream begins its text. */
  lemma FlattenCons(body: seq<string>)
    requires body != []
    ensures Flatten(body) == body[0] + Flatten(body[1..])
    ensures |body| > 1 ==> |Flatten(body[1..])| >= |body[1]|
  {
    if |body| > 1 {
      assert Flatten(body[1..]) == body[1] + Flatten(body[2..]);
    }
  }

  /** After the head, in fixed-length mode, with the count of data equal to the buffer's length. */
  predicate FixedMode(r: Reader)
  {
    r.parsedHeaders && !r.isChunked && r.expected.Some? && r.length == |r.buffer|
  }

  /** Reads of three or more characters each. */
  predicate LongReads(segments: seq<string>)
  {
    forall k :: 0 <= k < |segments| ==> |segments[k]| >= 3
  }

  /** Fixed-length mode after the head: one read of three or more characters is appended, and ends the loop once the body is complete. */
  lemma FixedLengthStep(r: Reader, first: string, tail: seq<string>)
    requires FixedMode(r)
    requires 3 <= |first| <= ReadSize(r)
    ensures StepOf(r, [first] + tail)
      == if |r.buffer| + |first| >= r.expected.value then Stop(Done(Response(r.buffer + first, r.statusCode, r.headers)), tail)
         else Next(r.(buffer := r.buffer + first, length := r.length + |first|), tail)
  {
    var s := [first] + tail;
    assert s[0] == first && s[1..] == tail;
    assert Recv(s, ReadSize(r)) == Read(first, tail);
  }

  /** Fixed-length mode after the head: a read that completes the body ends the loop with it. */
  lemma FixedLengthLast(r: Reader, last: string, rest: seq<string>)
    requires FixedMode(r)
    requires |last| >= 3 && |r.buffer| + |last| == r.expected.value
    ensures Assemble(r, [last] + rest) == (Done(Response(r.buffer + last, r.statusCode, r.headers)), rest)
  {
    FixedLengthStep(r, last, rest);
    AssembleStop(r, [last] + rest);
  }

  /** The reader after a read's data is appended to the buffer and counted. */
  function Appended(r: Reader, data: string): Reader
  {
    r.(buffer := r.buffer + data, length := r.length + |data|)
  }

  /** Fixed-length mode after the head: a read that leaves the body short is appended and the loop goes on. */
  lemma FixedLengthMore(r: Reader, first: string, tail: seq<string>)
    requires FixedMode(r)
    requires |first| >= 3 && |r.buffer| + |first| < r.expected.value
    ensures Assemble(r, [first] + tail) == Assemble(Appended(r, first), tail)
  {
    FixedLengthStep(r, first, tail);
    AssembleNext(r, [first] + tail);
  }

  /** The last read of a fixed-length body, as a one-element run of reads. */
  lemma FixedLengthOne(r: Reader, body: seq<string>, rest: seq<string>)
    requires FixedMode(r) && |body| == 1 && LongReads(body)
    requires |r.buffer| + |Flatten(body)| == r.expected.value
    ensures Assemble(r, body + rest) == (Done(Response(r.buffer + Flatten(body), r.statusCode, r.headers)), rest)
  {
    assert body == [body[0]] && body[1..] == [];
    assert Flatten(body) == body[0] + "" == body[0];
    FixedLengthLast(r, body[0], rest);
  }

  /** Dropping the first of several long reads leaves long reads. */
  lemma LongReadsTail(segments: seq<string>)
    requires segments != [] && LongReads(segments)
    ensures LongReads(segments[1..])
  {
    forall k | 0 <= k < |segments[1..]|
      ensures |segments[1..][k]| >= 3
    {
      assert segments[1..][k] == segments[k + 1];
    }
  }

  /** The first of several reads of a fixed-length body, appended, leaves the rest of the body to read. */
  lemma FixedLengthFirst(r: Reader, body: seq<string>, rest: seq<string>)
    requires FixedMode(r) && |body| > 1 && LongReads(body)
    requires |r.buffer| + |Flatten(body)| == r.expected.value
    ensures FixedMode(Appended(r, body[0])) && LongReads(body[1..])
    ensures Assemble(r, body + rest) == Assemble(Appended(r, body[0]), body[1..] + rest)
    ensures Appended(r, body[0]).buffer + Flatten(body[1..]) == r.buffer + Flatten(body)
  {
    var tail := body[1..] + rest;
    assert body + rest == [body[0]] + tail;
    FlattenCons(body);
    FixedLengthMore(r, body[0], tail);
    LongReadsTail(body);
    AppendAssoc(r.buffer, body[0], Flatten(body[1..]));
  }

  /**
   * Fixed-length mode after the head: reads of three or more characters
   * that together make up exactly the missing part of the body are
   * appended one by one, and the loop stops with the last of them.
   */
  lemma {:induction false} FixedLengthTail(r: Reader, body: seq<string>, rest: seq<string>)
    requires FixedMode(r)
    requires body != [] && LongReads(body)
    requires |r.buffer| + |Flatten(body)| == r.expected.value
    ensures Assemble(r, body + rest) == (Done(Response(r.buffer + Flatten(body), r.statusCode, r.headers)), rest)
    decreases |body|
  {
    if |body| == 1 {
      FixedLengthOne(r, body, rest);
    } else {
      FixedLengthFirst(r, body, rest);
      FixedLengthTail(Appended(r, body[0]), body[1..], rest);
    }
  }

  /** The reader right after a head that selects fixed-length framing. */
  function AfterHead(head: Head, length: int): Reader
  {
    Start.(parsedHeaders := true, expected := Some(length), headers := head.headers, statusCode := head.statusCode)
  }

  lemma AppendAssoc<T>(a: seq<T>, b: seq<T>, c: seq<T>)
    ensures a + b + c == a + (b + c)
  {
  }

  /** The first element of a stream and the rest of it, however the rest is grouped. */
  lemma ConsAssoc<T>(x: T, a: seq<T>, b: seq<T>)
    ensures [x] + a + b == [x] + (a + b)
    ensures ([x] + (a + b))[0] == x && ([x] + (a + b))[1..] == a + b
  {
  }

  /** The first read of a response whose head selects fixed-length framing: the post-head data is counted against `Content-Length`. */
  lemma FixedHeadStep(first: string, head: Head, length: nat, tail: seq<string>)
    requires 3 <= |first| <= 1024
    requires ParsedHeaders(first) == Ok(head) && head.statusCode != 500
    requires !IsChunked(head.headers)
    requires "Content-Length" in head.headers && ParseDecimal(head.headers["Content-Length"]) == Some(length)
    ensures StepOf(Start, [first] + tail) == Accept(AfterHead(head, length), head.data, tail)
  {
    var s := [first] + tail;
    assert s[0] == first && s[1..] == tail;
    assert Recv(s, 1024) == Read(first, tail);
    assert Frame(head) == Ok(Framing(false, length, head.data));
  }

  /**
   * Fixed-length framing: when the first read holds the head and part of
   * the body, and later reads of three or more characters carry the rest
   * of the `Content-Length` characters, the response text is the first
   * read's data followed by every later read, exactly `Content-Length`
   * characters, however the later reads are cut.
   */
  lemma FixedLengthBody(first: string, head: Head, length: nat, body: seq<string>, rest: seq<string>)
    requires 3 <= |first| <= 1024
    requires ParsedHeaders(first) == Ok(head) && head.statusCode != 500
    requires !IsChunked(head.headers)
    requires "Content-Length" in head.headers && ParseDecimal(head.headers["Content-Length"]) == Some(length)
    requires head.data != "" && body != [] && forall k :: 0 <= k < |body| ==> |body[k]| >= 3
    requires |head.data| + |Flatten(body)| == length
    ensures Receive([first] + body + rest) == (Done(Response(head.data + Flatten(body), head.statusCode, head.headers)), rest)
    ensures |head.data + Flatten(body)| == length
  {
    var tail := body + rest;
    ConsAssoc(first, body, rest);
    FixedHeadStep(first, head, length, tail);
    FlattenCons(body);
    var r := AfterHead(head, length).(buffer := head.data, length := |head.data|);
    assert Accept(AfterHead(head, length), head.data, tail) == Next(r, tail);
    AssembleNext(Start, [first] + tail);
    FixedLengthTail(r, body, rest);
  }

  /** Fixed-length framing: a first read that already holds the whole body ends the loop with its data. */
  lemma FirstReadCompletes(first: string, head: Head, length: nat, rest: seq<string>)
    requires 3 <= |first| <= 1024
    requires ParsedHeaders(first) == Ok(head) && head.statusCode != 500
    requires !IsChunked(head.headers)
    requires "Content-Length" in head.headers && ParseDecimal(head.headers["Content-Length"]) == Some(length)
    requires |head.data| >= length
    ensures Receive([first] + rest) == (Done(Response(head.data, head.statusCode, head.headers)), rest)
  {
    FixedHeadStep(first, head, length, rest);
    assert AfterHead(head, length).buffer + head.data == head.data;
    assert StepOf(Start, [first] + rest) == Stop(Done(Response(head.data, head.statusCode, head.headers)), rest);
    AssembleStop(Start, [first] + rest);
  }

  /**
   * A first read that ends with the head, whatever framing it announces,
   * ends the loop with an empty response text: the body is never read.
   */
  lemma HeadOnlyRead(first: string, head: Head, rest: seq<string>)
    requires 3 <= |first| <= 1024
    requires ParsedHeaders(first) == Ok(head) && head.statusCode != 500 && head.data == ""
    requires Frame(head).Ok?
    ensures Receive([first] + rest) == (Done(Response("", head.statusCode, head.headers)), rest)
  {
    var s := [first] + rest;
    assert s[0] == first && s[1..] == rest;
    AssembleStop(Start, s);
  }

  /** A head with status 500 ends the loop at once with empty text and the head's headers. */
  lemma ServerErrorHead(first: string, head: Head, rest: seq<string>)
    requires 3 <= |first| <= 1024
    requires ParsedHeaders(first) == Ok(head) && head.statusCode == 500
    ensures Receive([first] + rest) == (Done(Response("", 500, head.headers)), rest)
  {
    var s := [first] + rest;
    assert s[0] == first && s[1..] == rest;
    AssembleStop(Start, s);
  }

  /**
   * Chunked framing: when the post-head data is a size line free of CR,
   * CRLF, then `payload`, the expected length is the hexadecimal value of
   * the size line and the data kept is `payload` with every CRLF removed.
   */
  lemma ChunkedFirstData(head: Head, sizeLine: string, payload: string)
    requires IsChunked(head.headers)
    requires head.data == sizeLine + CRLF + payload && '\r' !in sizeLine && IsHex(sizeLine)
    ensures Frame(head) == Ok(Framing(true, HexValue(sizeLine), Replace(payload, CRLF, "")))
  {
    SplitAfter(sizeLine, CRLF, payload);
    var lines := Split(head.data, CRLF);
    assert lines[0] == sizeLine && lines[1..] == Split(payload, CRLF);
  }

  /** A blank line begins with a CRLF, and its next two characters are LF and CR. */
  lemma SeparatorChars(data: string, p: nat)
    requires OccursAt(data, Separator, p)
    ensures OccursAt(data, CRLF, p) && data[p + 1] == '\n' && data[p + 2] == '\r'
  {
    assert data[p..p + 4] == Separator;
    assert data[p] == data[p..p + 4][0] == '\r';
    assert data[p + 1] == data[p..p + 4][1] == '\n';
    assert data[p + 2] == data[p..p + 4][2] == '\r';
    assert data[p..p + 2] == [data[p], data[p + 1]];
  }

  /** A CRLF that fits in a prefix occurs there exactly when it occurs in the whole string. */
  lemma PrefixCrlf(data: string, p: nat, j: nat)
    requires p <= |data| && j + 2 <= p
    ensures OccursAt(data[..p], CRLF, j) <==> OccursAt(data, CRLF, j)
  {
    assert data[..p][j..j + 2] == data[j..j + 2];
  }

  /** A CRLF occurs no later than the first blank line, and one that overlaps the blank line is its own first CRLF. */
  lemma CrlfNearSeparator(data: string, p: nat)
    requires OccursAt(data, Separator, p)
    ensures Find(data, CRLF).Some? && Find(data, CRLF).value <= p
    ensures Find(data, CRLF).value + 2 > p ==> Find(data, CRLF).value == p
  {
    SeparatorChars(data, p);
    var i := Find(data, CRLF).value;
    assert i <= p;
    CrlfNotAdjacent(data, i);
  }

  /** Two CRLFs never overlap: the one at `i` ends with LF, which cannot start another. */
  lemma CrlfNotAdjacent(data: string, i: nat)
    requires OccursAt(data, CRLF, i)
    ensures !OccursAt(data, CRLF, i + 1)
  {
    OccursAtChars(data, CRLF, i);
    OccursAtChars(data, CRLF, i + 1);
    assert data[i + 1] == CRLF[1];
  }

  /** A CRLF that ends before the cut is the first CRLF of the part before the cut. */
  lemma CrlfBeforeCut(data: string, p: nat, i: nat)
    requires p <= |data| && i + 2 <= p && Find(data, CRLF) == Some(i)
    ensures Find(data[..p], CRLF) == Some(i)
  {
    var a := data[..p];
    forall j: nat | j < i
      ensures !OccursAt(a, CRLF, j)
    {
      PrefixCrlf(data, p, j);
    }
    PrefixCrlf(data, p, i);
    FindIsLeast(a, CRLF, i);
  }

  /** When the first CRLF is where the cut is, the part before the cut holds no CRLF. */
  lemma NoCrlfBeforeCut(data: string, p: nat)
    requires p <= |data| && Find(data, CRLF) == Some(p)
    ensures Find(data[..p], CRLF) == None
  {
    var a := data[..p];
    forall j: nat
      ensures !OccursAt(a, CRLF, j)
    {
      if j + 2 <= p {
        PrefixCrlf(data, p, j);
      }
    }
    FindFromNone(a, CRLF, 0);
  }

  /**
   * Cutting at the first blank line and then at the first CRLF is the same
   * as cutting at the first CRLF: a blank line begins with a CRLF.
   */
  lemma CutAtSeparator(data: string)
    requires Contains(data, Separator)
    ensures Split(Split(data, Separator)[0], CRLF)[0] == Split(data, CRLF)[0]
  {
    var p := Find(data, Separator).value;
    CrlfNearSeparator(data, p);
    var i := Find(data, CRLF).value;
    var a := data[..p];
    FirstFieldEnd(data, Separator);
    FirstFieldEnd(a, CRLF);
    FirstFieldEnd(data, CRLF);
    if i + 2 <= p {
      CrlfBeforeCut(data, p, i);
    } else {
      NoCrlfBeforeCut(data, p);
    }
  }

  /**
   * Chunked framing: once a chunk is complete, a read holding a blank line
   * ends the loop, appending only the text before the read's first CRLF.
   */
  lemma ChunkedLastRead(r: Reader, data: string, stream: seq<string>)
    requires r.parsedHeaders && r.isChunked && r.expected.Some?
    requires data != "" && r.length + |data| >= r.expected.value && Contains(data, Separator)
    ensures Accept(r, data, stream) == Stop(Done(Response(r.buffer + Split(data, CRLF)[0], r.statusCode, r.headers)), stream)
  {
    CutAtSeparator(data);
  }

  /** No chunk-size line fits in fewer than five characters. */
  lemma ShortNoSizeLine(s: string)
    requires |s| < 5
    ensures !HasSizeLine(s)
  {
  }

  /**
   * The inner loop stops at the first extension of its accumulator that
   * holds a chunk-size line: what it returns extends the accumulator, holds
   * a size line, no shorter extension does, and is followed by exactly the
   * input left unread. It returns None exactly when no prefix of the text
   * still to come completes a size line.
   */
  lemma {:induction false} ReadSizeLineFirst(acc: string, stream: seq<string>)
    requires !HasSizeLine(acc)
    ensures var r := ReadSizeLine(acc, stream);
      r.Some? ==>
        HasSizeLine(r.value.data) && |acc| < |r.value.data| && r.value.data[..|acc|] == acc
        && r.value.data + Flatten(r.value.rest) == acc + Flatten(stream)
        && forall k :: |acc| <= k < |r.value.data| ==> !HasSizeLine(r.value.data[..k])
    ensures ReadSizeLine(acc, stream).None?
      <==> forall k :: |acc| <= k <= |acc| + |Flatten(stream)| ==> !HasSizeLine((acc + Flatten(stream))[..k])
    decreases Size(stream)
  {
    var all := acc + Flatten(stream);
    assert all[..|acc|] == acc;
    if stream == [] {
      assert all == acc;
    } else {
      var rd := Recv(stream, 1);
      var acc' := acc + rd.data;
      AppendAssoc(acc, rd.data, Flatten(rd.rest));
      assert acc' + Flatten(rd.rest) == all;
      assert all[..|acc'|] == acc';
      assert forall k :: |acc| <= k < |acc'| ==> all[..k] == acc;
      if HasSizeLine(acc') {
        assert acc'[..|acc|] == acc;
        assert forall k :: |acc| <= k < |acc'| ==> acc'[..k] == acc;
      } else {
        ReadSizeLineFirst(acc', rd.rest);
        var r := ReadSizeLine(acc', rd.rest);
        assert ReadSizeLine(acc, stream) == r;
        if r.Some? {
          var d := r.value.data;
          assert d[..|acc|] == d[..|acc'|][..|acc|];
          assert forall k :: |acc| <= k < |acc'| ==> d[..k] == acc;
          assert all[..|d|] == d;
        }
      }
    }
  }

  /** The size a last chunk announces: a non-empty run of zeros. */
  predicate Zeros(z: string)
  {
    |z| > 0 && forall i :: 0 <= i < |z| ==> z[i] == '0'
  }

  /** Any run of zeros reads as hexadecimal 0. */
  lemma {:induction false} ZerosValue(z: string)
    requires Zeros(z)
    ensures ParseHex(z) == Some(0)
    decreases |z|
  {
    if |z| == 1 {
      assert z == "0";
      ParseHexZero();
    } else {
      var t := z[1..];
      assert Zeros(t);
      ZerosValue(t);
      assert z == "0" + t;
      HexLeadingZero(t);
    }
  }

  /** No LF-free text between two CRLFs ends inside a zero-size line before its final CRLF. */
  lemma ZeroLineNoEarlyEnd(z: string, k: nat, i: nat, j: nat)
    requires Zeros(z) && k < |z| + 4
    ensures !LineBetween((CRLF + z + CRLF)[..k], i, j)
  {
    var line := CRLF + z + CRLF;
    if i + 2 < j && j + 2 <= k {
      assert line[..k][j] == line[j] == z[j - 2];
    }
  }

  /** A zero-size line holds a size line, and none of its proper prefixes does. */
  lemma ZeroLineFirst(z: string)
    requires Zeros(z)
    ensures HasSizeLine(CRLF + z + CRLF)
    ensures forall k :: 0 <= k < |z| + 4 ==> !HasSizeLine((CRLF + z + CRLF)[..k])
  {
    var line := CRLF + z + CRLF;
    assert forall k :: 2 <= k < |z| + 2 ==> line[k] == z[k - 2];
    assert LineBetween(line, 0, |z| + 2);
    forall k, i: nat, j: nat | 0 <= k < |z| + 4
      ensures !LineBetween(line[..k], i, j)
    {
      ZeroLineNoEarlyEnd(z, k, i, j);
    }
  }

  /**
   * However the text still to come is split into segments, the inner loop
   * reads exactly its shortest prefix that holds a chunk-size line and
   * leaves the text after it.
   */
  lemma ReadFirstSizeLine(stream: seq<string>, line: string)
    requires |line| <= |Flatten(stream)| && Flatten(stream)[..|line|] == line
    requires HasSizeLine(line) && forall k :: 0 <= k < |line| ==> !HasSizeLine(line[..k])
    ensures ReadSizeLine("", stream).Some?
    ensures ReadSizeLine("", stream).value.data == line
    ensures Flatten(ReadSizeLine("", stream).value.rest) == Flatten(stream)[|line|..]
  {
    var all := Flatten(stream);
    ShortNoSizeLine("");
    ReadSizeLineFirst("", stream);
    assert "" + all == all && ("" + all)[..|line|] == line;
    var d := ReadSizeLine("", stream).value.data;
    var left := Flatten(ReadSizeLine("", stream).value.rest);
    assert d + left == all && all[..|d|] == d;
    FirstMatchUnique(all, d, line, HasSizeLine);
    assert all[|line|..] == left;
  }

  /**
   * When the text still to come begins with CRLF, a run of zeros and CRLF,
   * however it is split into segments, the inner loop reads exactly that
   * line and leaves the text after it.
   */
  lemma ZeroSizeLineRead(z: string, stream: seq<string>)
    requires Zeros(z) && |z| + 4 <= |Flatten(stream)| && Flatten(stream)[..|z| + 4] == CRLF + z + CRLF
    ensures ReadSizeLine("", stream).Some?
    ensures ReadSizeLine("", stream).value.data == CRLF + z + CRLF
    ensures Flatten(ReadSizeLine("", stream).value.rest) == Flatten(stream)[|z| + 4..]
  {
    ZeroLineFirst(z);
    ReadFirstSizeLine(stream, CRLF + z + CRLF);
  }

  /** Two prefixes of one text that each satisfy `p` while none of their own shorter prefixes does are the same prefix. */
  lemma FirstMatchUnique(all: string, d: string, line: string, p: string -> bool)
    requires |d| <= |all| && all[..|d|] == d && |line| <= |all| && all[..|line|] == line
    requires p(d) && forall k :: 0 <= k < |d| ==> !p(d[..k])
    requires p(line) && forall k :: 0 <= k < |line| ==> !p(line[..k])
    ensures d == line
  {
    assert |line| <= |d| ==> d[..|line|] == line;
    assert |d| <= |line| ==> line[..|d|] == d;
  }

  /** Removing every CRLF from a CR-free text enclosed in CRLFs leaves the text. */
  lemma ReplaceEnclosed(x: string)
    requires '\r' !in x
    ensures Replace(CRLF + x + CRLF, CRLF, "") == x
  {
    var tail := x + CRLF;
    SplitAfter(x, CRLF, "");
    assert x + CRLF + "" == tail;
    SplitAfter("", CRLF, tail);
    assert "" + CRLF + tail == CRLF + x + CRLF;
    var fields := ["", x, ""];
    assert Split(CRLF + x + CRLF, CRLF) == fields;
    assert fields[1..] == [x, ""] && fields[1..][1..] == [""];
    assert Join([x, ""], "") == x + "" + "";
    assert Join(fields, "") == "" + "" + Join([x, ""], "");
  }

  /** A zero-size line with its CRLFs removed reads as hexadecimal 0, whatever the number of zeros. */
  lemma ZeroSizeLineValue(z: string)
    requires Zeros(z)
    ensures ParseHex(Replace(CRLF + z + CRLF, CRLF, "")) == Some(0)
  {
    ReplaceEnclosed(z);
    ZerosValue(z);
  }

  /**
   * Chunked framing: once a chunk is complete and the read held no blank
   * line, the loop ends as soon as the first chunk-size line still to come
   * reads as hexadecimal 0 once its CRLFs are removed, however the text is
   * split into segments; the data of the read that completed the chunk is
   * not appended and the text after that line stays unread.
   */
  lemma FirstSizeLineZeroStops(r: Reader, data: string, line: string, stream: seq<string>)
    requires r.parsedHeaders && r.isChunked && r.expected.Some?
    requires data != "" && r.length + |data| >= r.expected.value && !Contains(data, Separator)
    requires |line| <= |Flatten(stream)| && Flatten(stream)[..|line|] == line
    requires HasSizeLine(line) && forall k :: 0 <= k < |line| ==> !HasSizeLine(line[..k])
    requires ParseHex(Replace(line, CRLF, "")) == Some(0)
    ensures var s := Accept(r, data, stream);
      s.Stop? && s.result == Done(Response(r.buffer, r.statusCode, r.headers))
      && Flatten(s.rest) == Flatten(stream)[|line|..]
  {
    ReadFirstSizeLine(stream, line);
  }

  /**
   * Chunked framing: once a chunk is complete and the read held no blank
   * line, a zero-size line arriving next, in any number of segments and
   * with any text after it, ends the loop, and the data of the read that
   * completed the chunk is not appended. The text after the line stays
   * unread.
   */
  lemma ZeroSizeLineStops(r: Reader, data: string, z: string, stream: seq<string>)
    requires r.parsedHeaders && r.isChunked && r.expected.Some?
    requires data != "" && r.length + |data| >= r.expected.value && !Contains(data, Separator)
    requires Zeros(z) && |z| + 4 <= |Flatten(stream)| && Flatten(stream)[..|z| + 4] == CRLF + z + CRLF
    ensures var s := Accept(r, data, stream);
      s.Stop? && s.result == Done(Response(r.buffer, r.statusCode, r.headers))
      && Flatten(s.rest) == Flatten(stream)[|z| + 4..]
  {
    ZeroLineFirst(z);
    ZeroSizeLineValue(z);
    FirstSizeLineZeroStops(r, data, CRLF + z + CRLF, stream);
  }

  /** A chunk completed by data without a blank line, on a connection with nothing more to give, leaves the reader waiting forever. */
  lemma ChunkCompleteThenClosed(r: Reader, data: string)
    requires r.parsedHeaders && r.isChunked && r.expected.Some?
    requires data != "" && r.length + |data| >= r.expected.value && !Contains(data, Separator)
    ensures Accept(r, data, []) == Stop(Stuck, [])
  {
  }

  /** The lines of the chunked body `5\r\nHello\r\n6\r\n World\r\n0\r\n\r\n` before its closing blank line. */
  const ExampleLines: seq<string> := ["5", "Hello", "6", " World", "0"]

  /** The payload after the first of those lines: `Hello\r\n6\r\n World\r\n0`. */
  const ExamplePayload: string := "Hello" + (CRLF + ("6" + (CRLF + (" World" + (CRLF + "0")))))

  /** That payload with its CRLFs removed: `Hello6 World0`. */
  const ExampleData: string := "Hello" + ("6" + (" World" + "0"))

  /** The example's lines joined by CRLF are the size line, CRLF and the payload. */
  lemma ExampleLinesJoined()
    ensures Join(ExampleLines, CRLF) == "5" + CRLF + ExamplePayload
  {
    var xs := ExampleLines;
    assert Join(xs[4..], CRLF) == "0";
    assert Join(xs[3..], CRLF) == " World" + CRLF + "0";
    assert Join(xs[2..], CRLF) == "6" + CRLF + (" World" + CRLF + "0");
    assert Join(xs[1..], CRLF) == "Hello" + CRLF + ("6" + CRLF + (" World" + CRLF + "0"));
  }

  /** The example's lines are non-empty and free of CR. */
  lemma ExampleLinesClean()
    ensures |ExampleLines| >= 1
    ensures forall i :: 0 <= i < |ExampleLines| ==> |ExampleLines[i]| > 0 && '\r' !in ExampleLines[i]
  {
  }

  /** A chunked head whose data is the example's lines: the size is 5 and the data kept is `Hello6 World0`. */
  lemma ExampleFraming(head: Head)
    requires IsChunked(head.headers) && head.data == Join(ExampleLines, CRLF)
    ensures Frame(head) == Ok(Framing(true, 5, ExampleData))
  {
    ExampleLinesJoined();
    assert IsHex("5") && HexValue("5") == 5;
    ChunkedFirstData(head, "5", ExamplePayload);
    RemoveThreeCrlf("Hello", "6", " World", "0");
  }

  /** `Hello6 World0` is longer than the 5-character chunk and holds no blank line. */
  lemma ExampleDataOpen()
    ensures |ExampleData| >= 5 && !Contains(ExampleData, Separator)
  {
    assert forall k :: 0 <= k < |ExampleData| ==> ExampleData[k] != '\r';
    NoCrNoSeparator(ExampleData);
  }

  /** A written response head announcing chunked framing, followed in the same read by the whole example body. */
  function ExampleRead(version: string, status: nat, reason: string, fields: seq<(string, string)>): string
  {
    RenderHead(version, status, reason, fields, Join(ExampleLines, CRLF) + Separator + "")
  }

  /**
   * The chunked body `5\r\nHello\r\n6\r\n World\r\n0\r\n\r\n` arriving in one
   * read with its head: `parse_headers` cuts the read at the body's closing
   * blank line, the first line gives the size 5 and the data kept is
   * `Hello6 World0`. That completes the chunk without holding a blank line,
   * so the reader waits for a size line on a connection that has nothing
   * more to give.
   */
  lemma ChunkedExampleStalls(version: string, status: nat, reason: string, fields: seq<(string, string)>)
    requires ' ' !in version && '\r' !in version && '\r' !in reason
    requires forall i :: 0 <= i < |fields| ==> PlainField(fields[i])
    requires IsChunked(FieldsMap(fields)) && status != 500
    requires |ExampleRead(version, status, reason, fields)| <= 1024
    ensures var head := ParsedHeaders(ExampleRead(version, status, reason, fields));
      head.Ok? && head.value.data == Join(ExampleLines, CRLF)
      && Frame(head.value) == Ok(Framing(true, 5, ExampleData))
    ensures Receive([ExampleRead(version, status, reason, fields)]) == (Stuck, [])
  {
    var read := ExampleRead(version, status, reason, fields);
    ExampleLinesClean();
    ParseRenderedHeadCut(version, status, reason, fields, ExampleLines, "");
    var head := Head(FieldsMap(fields), Join(ExampleLines, CRLF), status);
    ExampleFraming(head);
    ExampleDataOpen();
    ChunkedFirstReadStalls(read, head, 5, ExampleData);
  }

  /**
   * Chunked framing: a single read whose data, once framed, completes the
   * first chunk without holding a blank line, on a connection that then
   * has nothing more to give, leaves the reader waiting forever.
   */
  lemma ChunkedFirstReadStalls(first: string, head: Head, size: nat, data: string)
    requires 3 <= |first| <= 1024
    requires ParsedHeaders(first) == Ok(head) && head.statusCode != 500
    requires Frame(head) == Ok(Framing(true, size, data))
    requires data != "" && |data| >= size && !Contains(data, Separator)
    ensures Receive([first]) == (Stuck, [])
  {
    var r := Start.(parsedHeaders := true, isChunked := true, expected := Some(size),
                    headers := head.headers, statusCode := head.statusCode);
    ChunkCompleteThenClosed(r, data);
    assert Recv([first], 1024) == Read(first, []);
    AssembleStop(Start, [first]);
  }

  /** A text without CR holds no blank line. */
  lemma NoCrNoSeparator(s: string)
    requires '\r' !in s
    ensures !Contains(s, Separator)
  {
    ContainsFirstChar(s, Separator);
  }
}
