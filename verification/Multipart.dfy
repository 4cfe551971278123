/**
 MultipartFormData: the in-memory encoder, and the streaming one that must write the same bytes however the
 input streams chunk their reads and the output stream splits its writes.
 */
module Multipart {
  import opened Wire

  // ---------------------------------------------------------------- the form

  const CRLF: Bytes := [13, 10]
  const DASHES: Bytes := [45, 45]

  /** A body part: its header lines, what its stream still holds, and its two flags. */
  datatype Part = Part(headers: seq<(Bytes, Bytes)>, body: Bytes, initial: bool, final: bool)

  datatype BoundaryType = Initial | Encapsulated | Final

  function BoundaryData(kind: BoundaryType, boundary: Bytes): Bytes {
    match kind
    case Initial => DASHES + boundary + CRLF
    case Encapsulated => CRLF + DASHES + boundary + CRLF
    case Final => CRLF + DASHES + boundary + DASHES + CRLF
  }

  function HeaderLines(headers: seq<(Bytes, Bytes)>): Bytes {
    if headers == [] then []
    else HeaderLines(headers[..|headers| - 1]) + HeaderLine(headers[|headers| - 1])
  }

  function HeaderLine(h: (Bytes, Bytes)): Bytes { h.0 + [58, 32] + h.1 + CRLF }

  function Opening(p: Part): BoundaryType { if p.initial then Initial else Encapsulated }

  function EncPart(boundary: Bytes, p: Part): Bytes {
    BoundaryData(Opening(p), boundary) + (HeaderLines(p.headers) + CRLF) + p.body
    + if p.final then BoundaryData(Final, boundary) else []
  }

  function EncParts(boundary: Bytes, parts: seq<Part>): Bytes {
    if parts == [] then [] else EncParts(boundary, parts[..|parts| - 1]) + EncPart(boundary, parts[|parts| - 1])
  }

  lemma EncPartsNext(boundary: Bytes, parts: seq<Part>, i: nat)
    requires i < |parts|
    ensures EncParts(boundary, parts[..i + 1]) == EncParts(boundary, parts[..i]) + EncPart(boundary, parts[i])
  {
    assert parts[..i + 1][..i] == parts[..i];
  }

  /** The flags that encoding sets, and leaves set. */
  function Marked(parts: seq<Part>): (r: seq<Part>)
    ensures |r| == |parts|
  {
    if parts == [] then []
    else
      var first := parts[0 := parts[0].(initial := true)];
      first[|parts| - 1 := first[|parts| - 1].(final := true)]
  }

  /** Every stream read to its end. */
  function Drained(parts: seq<Part>): (r: seq<Part>)
    ensures |r| == |parts|
  {
    seq(|parts|, i requires 0 <= i < |parts| => parts[i].(body := []))
  }

  /** As much as fits. */
  function Fitting(capacity: Option<nat>, bytes: Bytes): Bytes {
    if capacity.Some? && capacity.value < |bytes| then bytes[..capacity.value] else bytes
  }

  // ---------------------------------------------------------------- streams

  datatype Error = BodyPartFailed(reason: nat) | ReadFailed | WriteFailed | FileExists | NotAFile | NoStream

  datatype Outcome<T> = Returned(value: T) | Threw(error: Error)

  /** An input stream may hand out its bytes in pieces of any positive size, and may fail if it is faulty. */
  class InputStream {
    const content: Bytes
    const faulty: bool
    var at: nat

    ghost predicate Valid()
      reads this
    {
      at <= |content|
    }

    ghost function Remaining(): Bytes
      requires Valid()
      reads this
    {
      content[at..]
    }

    constructor (content: Bytes, faulty: bool)
      ensures Valid() && Remaining() == content && this.faulty == faulty
    {
      this.content, this.faulty, at := content, faulty, 0;
    }

    /** At the end of its bytes a stream may still ask for one more read to find out. */
    method HasBytesAvailable() returns (available: bool)
      requires Valid()
      ensures Remaining() != [] ==> available
    {
      available :| at < |content| ==> available;
    }

    method Read(buffer: array<Byte>, maxLength: nat) returns (bytesRead: int, streamError: bool)
      requires Valid() && 0 < maxLength <= buffer.Length
      modifies this, buffer
      ensures Valid() && (streamError ==> faulty)
      ensures !streamError ==>
                && 0 <= bytesRead <= maxLength && bytesRead <= |old(Remaining())|
                && (bytesRead == 0 <==> old(Remaining()) == [])
                && buffer[..bytesRead] == old(Remaining())[..bytesRead]
                && Remaining() == old(Remaining())[bytesRead..]
    {
      streamError :| streamError ==> faulty;
      if streamError {
        return -1, true;
      }
      if at == |content| {
        return 0, false;
      }
      var most := if |content| - at < maxLength then |content| - at else maxLength;
      bytesRead :| 1 <= bytesRead <= most;
      var i := 0;
      while i < bytesRead
        modifies buffer
        invariant 0 <= i <= bytesRead && forall j :: 0 <= j < i ==> buffer[j] == content[at + j]
      {
        buffer[i] := content[at + i];
        i := i + 1;
      }
      at := at + bytesRead;
    }
  }

  /** An output stream may accept any positive part of what it is offered, while it has space. */
  class OutputStream {
    const capacity: Option<nat>
    const faulty: bool
    var written: Bytes

    ghost predicate Valid()
      reads this
    {
      capacity.Some? ==> |written| <= capacity.value
    }

    constructor (capacity: Option<nat>, faulty: bool)
      ensures Valid() && written == [] && this.capacity == capacity && this.faulty == faulty
    {
      this.capacity, this.faulty, written := capacity, faulty, [];
    }

    predicate HasSpaceAvailable()
      reads this
    {
      capacity.Some? ==> |written| < capacity.value
    }

    method Write(buffer: Bytes, maxLength: nat) returns (bytesWritten: int, streamError: bool)
      requires Valid() && HasSpaceAvailable() && 0 < maxLength <= |buffer|
      modifies this
      ensures Valid() && (streamError ==> faulty)
      ensures !streamError ==> 0 < bytesWritten <= maxLength && written == old(written) + buffer[..bytesWritten]
    {
      streamError :| streamError ==> faulty;
      if streamError {
        return -1, true;
      }
      var most := maxLength;
      if capacity.Some? && capacity.value - |written| < maxLength {
        most := capacity.value - |written|;
      }
      bytesWritten :| 1 <= bytesWritten <= most;
      written := written + buffer[..bytesWritten];
    }
  }

  class BodyPart {
    const headers: seq<(Bytes, Bytes)>
    const bodyStream: InputStream
    var hasInitialBoundary: bool
    var hasFinalBoundary: bool

    ghost predicate Valid()
      reads this, bodyStream
    {
      bodyStream.Valid()
    }

    ghost function Look(): Part
      requires Valid()
      reads this, bodyStream
    {
      Part(headers, bodyStream.Remaining(), hasInitialBoundary, hasFinalBoundary)
    }

    constructor (headers: seq<(Bytes, Bytes)>, bodyStream: InputStream)
      requires bodyStream.Valid()
      ensures Valid() && this.bodyStream == bodyStream
      ensures Look() == Part(headers, bodyStream.Remaining(), false, false)
    {
      this.headers, this.bodyStream := headers, bodyStream;
      hasInitialBoundary, hasFinalBoundary := false, false;
    }
  }

  const STREAM_BUFFER_SIZE := 1024

  method EncodeHeaders(part: BodyPart) returns (text: Bytes)
    ensures text == HeaderLines(part.headers) + CRLF
  {
    text := [];
    var i := 0;
    while i < |part.headers|
      invariant i <= |part.headers| && text == HeaderLines(part.headers[..i])
    {
      assert part.headers[..i + 1][..i] == part.headers[..i];
      text := text + (part.headers[i].0 + [58, 32] + part.headers[i].1 + CRLF);
      i := i + 1;
    }
    assert part.headers[..i] == part.headers;
    text := text + CRLF;
  }

  // ---------------------------------------------------------------- in memory

  method EncodeBodyStream(stream: InputStream) returns (r: Outcome<Bytes>)
    requires stream.Valid()
    modifies stream
    ensures stream.Valid() && (r.Threw? ==> stream.faulty && r.error == ReadFailed)
    ensures r.Returned? ==> r.value == old(stream.Remaining()) && stream.Remaining() == []
  {
    var encoded: Bytes := [];
    ghost var whole := stream.Remaining();
    hide InputStream.Remaining;
    var available := stream.HasBytesAvailable();
    while available
      invariant stream.Valid() && encoded + stream.Remaining() == whole
      invariant stream.Remaining() != [] ==> available
      decreases |stream.Remaining()|, available
    {
      var buffer := new Byte[STREAM_BUFFER_SIZE](_ => 0);
      ghost var left := stream.Remaining();
      var bytesRead, streamError := stream.Read(buffer, STREAM_BUFFER_SIZE);
      if streamError {
        return Threw(ReadFailed);
      }
      if bytesRead > 0 {
        Regroup(encoded, left, bytesRead);
        encoded := encoded + buffer[..bytesRead];
      } else {
        break;
      }
      available := stream.HasBytesAvailable();
    }
    assert encoded + [] == encoded;
    return Returned(encoded);
  }

  method EncodeBodyPart(boundary: Bytes, part: BodyPart) returns (r: Outcome<Bytes>)
    requires part.Valid()
    modifies part.bodyStream
    ensures part.Valid() && (r.Threw? ==> part.bodyStream.faulty && r.error == ReadFailed)
    ensures r.Returned? ==>
              r.value == EncPart(boundary, old(part.Look())) && part.Look() == old(part.Look()).(body := [])
  {
    var encoded := BoundaryData(if part.hasInitialBoundary then Initial else Encapsulated, boundary);
    var headerData := EncodeHeaders(part);
    encoded := encoded + headerData;
    var body := EncodeBodyStream(part.bodyStream);
    if body.Threw? {
      return Threw(body.error);
    }
    encoded := encoded + body.value;
    if part.hasFinalBoundary {
      encoded := encoded + BoundaryData(Final, boundary);
    }
    return Returned(encoded);
  }

  // ---------------------------------------------------------------- streaming

  /** What a stream has after being offered some bytes: all that fit. */
  ghost predicate Offered(output: OutputStream, was: Bytes, bytes: Bytes)
    reads output
  {
    output.Valid() && output.written == Fitting(output.capacity, was + bytes)
  }

  method WriteBuffer(data: Bytes, output: OutputStream) returns (r: Outcome<()>)
    requires output.Valid()
    modifies output
    ensures output.Valid() && (r.Threw? ==> output.faulty && r.error == WriteFailed)
    ensures r.Returned? ==> Offered(output, old(output.written), data)
  {
    var buffer, bytesToWrite := data, |data|;
    while bytesToWrite > 0 && output.HasSpaceAvailable()
      invariant output.Valid() && bytesToWrite <= |buffer| && (bytesToWrite > 0 ==> bytesToWrite == |buffer|)
      invariant output.written + (if bytesToWrite > 0 then buffer else []) == old(output.written) + data
    {
      var bytesWritten, streamError := output.Write(buffer, bytesToWrite);
      if streamError {
        return Threw(WriteFailed);
      }
      bytesToWrite := bytesToWrite - bytesWritten;
      if bytesToWrite > 0 {
        buffer := buffer[bytesWritten..];
      }
    }
    return Returned(());
  }

  method WriteBodyStream(stream: InputStream, output: OutputStream) returns (r: Outcome<()>)
    requires stream.Valid() && output.Valid()
    modifies stream, output
    ensures stream.Valid() && output.Valid() && (r.Threw? ==> stream.faulty || output.faulty)
    ensures r.Returned? ==>
              stream.Remaining() == [] && Offered(output, old(output.written), old(stream.Remaining()))
  {
    ghost var was, whole, done: Bytes := output.written, stream.Remaining(), [];
    assert Offered(output, was, done) && done + stream.Remaining() == whole;
    hide Offered, Fitting, InputStream.Remaining;
    var available := stream.HasBytesAvailable();
    while available
      invariant stream.Valid() && output.Valid() && done + stream.Remaining() == whole
      invariant Offered(output, was, done)
      invariant stream.Remaining() != [] ==> available
      decreases |stream.Remaining()|, available
    {
      var buffer := new Byte[STREAM_BUFFER_SIZE](_ => 0);
      ghost var left := stream.Remaining();
      var bytesRead, streamError := stream.Read(buffer, STREAM_BUFFER_SIZE);
      if streamError {
        return Threw(ReadFailed);
      }
      if bytesRead == 0 {
        break;
      }
      var chunk := buffer[..bytesRead];
      Regroup(done, left, bytesRead);
      r := WriteMore(chunk, output, was, done);
      if r.Threw? {
        return;
      }
      done := done + chunk;
      available := stream.HasBytesAvailable();
    }
    assert done == whole;
    return Returned(());
  }

  lemma Regroup(a: Bytes, b: Bytes, n: nat)
    requires n <= |b|
    ensures a + b == (a + b[..n]) + b[n..]
  {
    assert b == b[..n] + b[n..];
  }

  /** Another piece of a body, after `done` of it has been offered. */
  method WriteMore(data: Bytes, output: OutputStream, ghost was: Bytes, ghost done: Bytes) returns (r: Outcome<()>)
    requires Offered(output, was, done)
    modifies output
    ensures output.Valid() && (r.Threw? ==> output.faulty)
    ensures r.Returned? ==> Offered(output, was, done + data)
  {
    hide Fitting;
    r := WriteBuffer(data, output);
    OfferedMore(output.capacity, was, done, data);
  }

  lemma IsOffered(output: OutputStream, bytes: Bytes)
    requires Offered(output, [], bytes)
    ensures output.written == Fitting(output.capacity, bytes)
  {
    assert [] + bytes == bytes;
  }

  lemma NothingOffered(output: OutputStream, boundary: Bytes, parts: seq<Part>)
    requires output.Valid() && output.written == []
    ensures Offered(output, [], EncParts(boundary, parts[..0]))
  {
    assert parts[..0] == [];
    assert EncParts(boundary, []) == [];
  }

  lemma FitsExactly(capacity: Option<nat>, bytes: Bytes)
    ensures Fitting(capacity, bytes) == bytes <==> (capacity.Some? ==> |bytes| <= capacity.value)
  {
  }

  /** Offering one piece after another is offering both at once: what did not fit leaves no room for more. */
  lemma OfferedMore(capacity: Option<nat>, was: Bytes, a: Bytes, b: Bytes)
    ensures Fitting(capacity, Fitting(capacity, was + a) + b) == Fitting(capacity, was + (a + b))
  {
    assert was + (a + b) == (was + a) + b;
  }

  method WriteBodyPart(boundary: Bytes, part: BodyPart, output: OutputStream) returns (r: Outcome<()>)
    requires part.Valid() && output.Valid()
    modifies part.bodyStream, output
    ensures part.Valid() && output.Valid() && (r.Threw? ==> part.bodyStream.faulty || output.faulty)
    ensures r.Returned? ==>
              && part.Look() == old(part.Look()).(body := [])
              && Offered(output, old(output.written), EncPart(boundary, old(part.Look())))
  {
    ghost var was, look := output.written, part.Look();
    ghost var opening, header := BoundaryData(Opening(look), boundary), HeaderLines(look.headers) + CRLF;
    r := WriteBuffer(BoundaryData(if part.hasInitialBoundary then Initial else Encapsulated, boundary), output);
    if r.Threw? { return; }
    var headerData := EncodeHeaders(part);
    r := WriteBuffer(headerData, output);
    if r.Threw? { return; }
    OfferedMore(output.capacity, was, opening, header);
    r := WriteBodyStream(part.bodyStream, output);
    if r.Threw? { return; }
    OfferedMore(output.capacity, was, opening + header, look.body);
    if part.hasFinalBoundary {
      r := WriteBuffer(BoundaryData(Final, boundary), output);
      OfferedMore(output.capacity, was, opening + header + look.body, BoundaryData(Final, boundary));
    }
  }

  // ---------------------------------------------------------------- the class

  class MultipartFormData {
    const boundary: Bytes
    var bodyParts: seq<BodyPart>
    var bodyPartError: Option<Error>

    /** Each part has a stream of its own, and only the first can carry the opening mark. */
    ghost predicate Valid()
      reads this, bodyParts, Streams()
    {
      && (forall i :: 0 <= i < |bodyParts| ==> bodyParts[i].Valid())
      && (forall i, j :: 0 <= i < j < |bodyParts| ==>
                           bodyParts[i] != bodyParts[j] && bodyParts[i].bodyStream != bodyParts[j].bodyStream)
      && (forall i :: 0 < i < |bodyParts| ==> !bodyParts[i].hasInitialBoundary)
    }

    ghost function Streams(): set<InputStream>
      reads this
    {
      set p | p in bodyParts :: p.bodyStream
    }

    ghost function Look(): (r: seq<Part>)
      requires Valid()
      reads this, bodyParts, Streams()
      ensures |r| == |bodyParts| && forall i :: 0 <= i < |r| ==> r[i] == bodyParts[i].Look()
    {
      seq(|bodyParts|, i requires 0 <= i < |bodyParts| && bodyParts[i].Valid()
                         reads this, bodyParts, Streams() => bodyParts[i].Look())
    }

    ghost predicate Faulty()
      reads this
    {
      exists p :: p in bodyParts && p.bodyStream.faulty
    }

    constructor (boundary: Bytes)
      ensures Valid() && Look() == [] && bodyPartError == None && this.boundary == boundary
    {
      this.boundary, bodyParts, bodyPartError := boundary, [], None;
    }

    method Append(stream: InputStream, headers: seq<(Bytes, Bytes)>)
      requires Valid() && stream.Valid() && stream !in Streams()
      modifies this`bodyParts
      ensures Valid() && Look() == old(Look()) + [Part(headers, stream.Remaining(), false, false)]
      ensures Streams() == old(Streams()) + {stream}
    {
      var bodyPart := new BodyPart(headers, stream);
      assert forall p :: p in bodyParts ==> p.bodyStream in Streams();
      bodyParts := bodyParts + [bodyPart];
    }

    /** The first error is kept. */
    method SetBodyPartError(reason: nat)
      modifies this`bodyPartError
      ensures bodyPartError == if old(bodyPartError).Some? then old(bodyPartError) else Some(BodyPartFailed(reason))
    {
      if bodyPartError.Some? {
        return;
      }
      bodyPartError := Some(BodyPartFailed(reason));
    }

    /** bodyParts.first?.hasInitialBoundary = true; bodyParts.last?.hasFinalBoundary = true */
    method MarkEnds()
      requires Valid()
      modifies bodyParts
      ensures Valid() && Look() == Marked(old(Look()))
    {
      if bodyParts != [] {
        bodyParts[0].hasInitialBoundary := true;
        bodyParts[|bodyParts| - 1].hasFinalBoundary := true;
      }
    }

    /** The parts before `i` have been read to the end, the others are as they were. */
    ghost predicate Reached(parts: seq<Part>, i: nat)
      requires Valid()
      reads this, bodyParts, Streams()
    {
      && i <= |parts| == |bodyParts|
      && (forall j :: 0 <= j < i ==> bodyParts[j].Look() == parts[j].(body := []))
      && (forall j :: i <= j < |bodyParts| ==> bodyParts[j].Look() == parts[j])
    }

    /** One round of the encoding loop. */
    method EncodeAt(i: nat, ghost parts: seq<Part>) returns (r: Outcome<Bytes>)
      requires Valid() && Reached(parts, i) && i < |bodyParts|
      modifies bodyParts[i].bodyStream
      ensures Valid() && (r.Threw? ==> Faulty())
      ensures r.Returned? ==> r.value == EncPart(boundary, parts[i]) && Reached(parts, i + 1)
    {
      hide EncPart;
      r := EncodeBodyPart(boundary, bodyParts[i]);
    }

    /** One round of the writing loop, after `done` has been offered. */
    method WriteAt(i: nat, ghost parts: seq<Part>, output: OutputStream, ghost done: Bytes) returns (r: Outcome<()>)
      requires Valid() && Reached(parts, i) && i < |bodyParts| && Offered(output, [], done)
      modifies bodyParts[i].bodyStream, output
      ensures Valid() && output.Valid() && (r.Threw? ==> Faulty() || output.faulty)
      ensures r.Returned? ==> Offered(output, [], done + EncPart(boundary, parts[i])) && Reached(parts, i + 1)
    {
      hide EncPart, Fitting, OutputStream.Valid;
      StreamOf(i);
      r := WriteBodyPart(boundary, bodyParts[i], output);
      OfferedMore(output.capacity, [], done, EncPart(boundary, parts[i]));
    }

    /** The loop of encode. */
    method EncodeAll(ghost parts: seq<Part>) returns (r: Outcome<Bytes>)
      requires Valid() && parts == Look()
      modifies Streams()
      ensures Valid() && (r.Threw? ==> Faulty())
      ensures r.Returned? ==> r.value == EncParts(boundary, parts) && Look() == Drained(parts)
    {
      NoneReached();
      assert EncParts(boundary, []) == [];
      hide EncPart, EncParts, Valid, Reached, Faulty;
      var encoded: Bytes, i := [], 0;
      assert parts[..0] == [];
      while i < |bodyParts|
        invariant i <= |bodyParts| && Valid() && Reached(parts, i) && encoded == EncParts(boundary, parts[..i])
      {
        assert bodyParts[i].bodyStream in Streams();
        var encodedData := EncodeAt(i, parts);
        if encodedData.Threw? {
          return encodedData;
        }
        EncPartsNext(boundary, parts, i);
        encoded := encoded + encodedData.value;
        i := i + 1;
      }
      assert parts[..|parts|] == parts;
      AllReached(parts);
      return Returned(encoded);
    }

    /** The loop of writeEncodedData. */
    method WriteAll(ghost parts: seq<Part>, output: OutputStream) returns (r: Outcome<()>)
      requires Valid() && parts == Look() && output.Valid() && output.written == []
      modifies Streams(), output
      ensures Valid() && output.Valid() && (r.Threw? ==> Faulty() || output.faulty)
      ensures r.Returned? ==>
                output.written == Fitting(output.capacity, EncParts(boundary, parts)) && Look() == Drained(parts)
    {
      hide *;
      NoneReached();
      NothingOffered(output, boundary, parts);
      ghost var done := EncParts(boundary, parts[..0]);
      var i := 0;
      while i < |bodyParts|
        invariant i <= |bodyParts| && Valid() && Reached(parts, i) && output.Valid()
        invariant Offered(output, [], done) && done == EncParts(boundary, parts[..i])
      {
        StreamOf(i);
        r := WriteAt(i, parts, output, done);
        if r.Threw? {
          return;
        }
        EncPartsNext(boundary, parts, i);
        done := done + EncPart(boundary, parts[i]);
        i := i + 1;
      }
      assert parts[..|parts|] == parts;
      AllReached(parts);
      IsOffered(output, done);
      return Returned(());
    }

    lemma StreamOf(i: nat)
      requires i < |bodyParts|
      ensures bodyParts[i].bodyStream in Streams()
    {
    }

    lemma NoneReached()
      requires Valid()
      ensures Reached(Look(), 0) && |Look()| == |bodyParts|
    {
    }

    lemma AllReached(parts: seq<Part>)
      requires Valid() && Reached(parts, |parts|)
      ensures Look() == Drained(parts)
    {
    }

    lemma OpensWithFirst()
      requires Valid()
      ensures OpensFirst(Look())
    {
    }

    method Encode() returns (r: Outcome<Bytes>)
      requires Valid()
      modifies bodyParts, Streams()
      ensures Valid()
      ensures bodyPartError.Some? ==> r == Threw(bodyPartError.value) && Look() == old(Look())
      ensures r.Threw? ==> bodyPartError == Some(r.error) || Faulty()
      ensures r.Returned? ==>
                r.value == EncParts(boundary, Marked(old(Look()))) && Look() == Drained(Marked(old(Look())))
      ensures r.Returned? && bodyParts != [] ==>
                (IsForm(boundary, r.value, Texts(old(Look()))) <==> ClosesLast(old(Look())))
    {
      if bodyPartError.Some? {
        return Threw(bodyPartError.value);
      }
      ghost var was := Look();
      OpensWithFirst();
      MarkEnds();
      ghost var marked := Look();
      hide *;
      r := EncodeAll(marked);
      EncodesTheForm(boundary, was);
    }

    /**
     Streaming refines encoding in memory: however the reads are chunked and the writes split, the file gets
     the bytes that encode would have returned, all of them exactly when they fit; when they do not, nothing
     tells the caller. The file's existence, its URL's kind and the stream it opens are the caller's to choose.
     */
    method WriteEncodedData(fileExists: bool, isFileURL: bool, output: Option<OutputStream>) returns (r: Outcome<()>)
      requires Valid() && (output.Some? ==> output.value.Valid() && output.value.written == [])
      modifies bodyParts, Streams(), if output.Some? then {output.value} else {}
      ensures Valid() && (output.Some? ==> output.value.Valid())
      ensures bodyPartError.Some? ==> r == Threw(bodyPartError.value)
      ensures bodyPartError.None? ==>
                && (fileExists ==> r == Threw(FileExists))
                && (!fileExists && !isFileURL ==> r == Threw(NotAFile))
                && (!fileExists && isFileURL && output.None? ==> r == Threw(NoStream))
                && (r.Threw? ==> fileExists || !isFileURL || output.None? || Faulty() || output.value.faulty)
      ensures bodyPartError.Some? || fileExists || !isFileURL || output.None? ==>
                Look() == old(Look()) && (output.Some? ==> output.value.written == [])
      ensures r.Returned? ==>
                && output.Some? && Look() == Drained(Marked(old(Look())))
                && output.value.written == Fitting(output.value.capacity, EncParts(boundary, Marked(old(Look()))))
                && (output.value.written == EncParts(boundary, Marked(old(Look())))
                    <==> (output.value.capacity.Some? ==>
                            |EncParts(boundary, Marked(old(Look())))| <= output.value.capacity.value))
    {
      if bodyPartError.Some? {
        return Threw(bodyPartError.value);
      }
      if fileExists {
        return Threw(FileExists);
      } else if !isFileURL {
        return Threw(NotAFile);
      }
      if output.None? {
        return Threw(NoStream);
      }
      MarkEnds();
      ghost var form := EncParts(boundary, Marked(old(Look())));
      FitsExactly(output.value.capacity, form);
      hide MultipartFormData.Look, EncParts, Marked, Drained, Fitting;
      r := WriteAll(Look(), output.value);
    }
  }

  // ---------------------------------------------------------------- the form of RFC 2046, section 5.1.1

  /** delimiter := CRLF "--" boundary */
  function Delimiter(boundary: Bytes): (d: Bytes)
    ensures d != [] && d[0] == 13
  {
    [13, 10, 45, 45] + boundary
  }

  /** body-part := header lines, an empty line and the body */
  function BodyPartText(p: Part): Bytes { HeaderLines(p.headers) + CRLF + p.body }

  function Texts(parts: seq<Part>): (r: seq<Bytes>)
    ensures |r| == |parts|
  {
    seq(|parts|, i requires 0 <= i < |parts| => BodyPartText(parts[i]))
  }

  /** delimiter CRLF body-part */
  function Encapsulation(boundary: Bytes, text: Bytes): Bytes { Delimiter(boundary) + CRLF + text }

  /** delimiter "--", and the line end the source closes with */
  function Close(boundary: Bytes): Bytes { Delimiter(boundary) + DASHES + CRLF }

  /** *(delimiter CRLF body-part) close-delimiter */
  function Encapsulations(boundary: Bytes, texts: seq<Bytes>): Bytes {
    if texts == [] then Close(boundary)
    else Encapsulation(boundary, texts[0]) + Encapsulations(boundary, texts[1..])
  }

  /** multipart-body := "--" boundary CRLF body-part *(delimiter CRLF body-part) close-delimiter */
  function Form(boundary: Bytes, texts: seq<Bytes>): Bytes
    requires texts != []
  {
    (DASHES + boundary + CRLF + texts[0]) + Encapsulations(boundary, texts[1..])
  }

  predicate IsForm(boundary: Bytes, bytes: Bytes, texts: seq<Bytes>) {
    texts != [] && bytes == Form(boundary, texts)
  }

  /** The parts of a form to which nothing has happened but append. */
  predicate Unmarked(parts: seq<Part>) {
    forall i :: 0 <= i < |parts| ==> !parts[i].initial && !parts[i].final
  }

  lemma Regrouped(a: Bytes, b: Bytes, c: Bytes)
    ensures (a + b) + c == a + (b + c)
  {
  }

  lemma FormCloses(boundary: Bytes, texts: seq<Bytes>)
    requires texts != []
    ensures CRLF + Form(boundary, texts) == Encapsulations(boundary, texts)
  {
    var open, rest := DASHES + boundary + CRLF + texts[0], Encapsulations(boundary, texts[1..]);
    assert CRLF + open == Encapsulation(boundary, texts[0]);
    Regrouped(CRLF, open, rest);
  }

  lemma BoundariesAreDelimiters(boundary: Bytes)
    ensures CRLF + BoundaryData(Initial, boundary) == Delimiter(boundary) + CRLF
    ensures BoundaryData(Encapsulated, boundary) == Delimiter(boundary) + CRLF
    ensures BoundaryData(Final, boundary) == Close(boundary)
  {
  }

  /** What one part contributes, an initial one a line end less. */
  lemma PartEncapsulated(boundary: Bytes, p: Part)
    ensures var own, text := EncPart(boundary, p), Encapsulation(boundary, BodyPartText(p));
            (if p.initial then CRLF + own else own) == if p.final then text + Close(boundary) else text
  {
    var text, open := BodyPartText(p), BoundaryData(Opening(p), boundary);
    var end := if p.final then BoundaryData(Final, boundary) else [];
    assert EncPart(boundary, p) == open + (HeaderLines(p.headers) + CRLF) + p.body + end;
    assert Encapsulation(boundary, text) == Delimiter(boundary) + CRLF + text;
    BoundariesAreDelimiters(boundary);
    Regrouped(open, HeaderLines(p.headers) + CRLF, p.body);
    hide BoundaryData, Delimiter, Close, HeaderLines, Encapsulation, EncPart;
    if p.initial {
      Regrouped(CRLF, open, text);
      Regrouped(CRLF, open + text, end);
    }
    assert Encapsulation(boundary, text) + [] == Encapsulation(boundary, text);
  }

  lemma {:induction false} EncPartsConcat(boundary: Bytes, a: seq<Part>, b: seq<Part>)
    ensures EncParts(boundary, a + b) == EncParts(boundary, a) + EncParts(boundary, b)
    decreases |b|
  {
    hide EncPart;
    if b == [] {
      assert a + b == a;
    } else {
      var n := |b| - 1;
      assert (a + b)[..|a + b| - 1] == a + b[..n];
      EncPartsConcat(boundary, a, b[..n]);
      Regrouped(EncParts(boundary, a), EncParts(boundary, b[..n]), EncPart(boundary, b[n]));
    }
  }

  lemma EncPartsHead(boundary: Bytes, parts: seq<Part>)
    requires parts != []
    ensures EncParts(boundary, parts) == EncPart(boundary, parts[0]) + EncParts(boundary, parts[1..])
  {
    hide EncPart;
    assert parts == [parts[0]] + parts[1..];
    EncPartsConcat(boundary, [parts[0]], parts[1..]);
    assert [parts[0]][..0] == [];
    assert EncParts(boundary, [parts[0]]) == [] + EncPart(boundary, parts[0]);
  }

  /** Only the first part may open the form: what every call to append and encode keeps. */
  predicate OpensFirst(parts: seq<Part>) {
    forall i :: 0 < i < |parts| ==> !parts[i].initial
  }

  /** No part before the last one closes the form. */
  predicate ClosesLast(parts: seq<Part>) {
    forall i :: 0 <= i < |parts| - 1 ==> !parts[i].final
  }

  /** Parts behind others, closed by the last. */
  lemma {:induction false} PartsEncapsulated(boundary: Bytes, parts: seq<Part>)
    requires parts != [] && ClosesLast(parts) && parts[|parts| - 1].final
    requires forall i :: 0 <= i < |parts| ==> !parts[i].initial
    ensures EncParts(boundary, parts) == Encapsulations(boundary, Texts(parts))
    decreases |parts|
  {
    hide EncPart, BodyPartText, Encapsulation, Close;
    PartEncapsulated(boundary, parts[0]);
    EncPartsHead(boundary, parts);
    assert Texts(parts)[1..] == Texts(parts[1..]);
    if |parts| == 1 {
      assert Texts(parts[1..]) == [] && EncParts(boundary, parts[1..]) == [];
    } else {
      PartsEncapsulated(boundary, parts[1..]);
    }
  }

  /** Parts of which the first opens and the last, and no other, closes. */
  lemma MarkedEncapsulated(boundary: Bytes, parts: seq<Part>)
    requires parts != [] && parts[0].initial && OpensFirst(parts) && ClosesLast(parts) && parts[|parts| - 1].final
    ensures CRLF + EncParts(boundary, parts) == Encapsulations(boundary, Texts(parts))
  {
    hide EncPart, BodyPartText, Encapsulation, Close;
    var own, rest := EncPart(boundary, parts[0]), EncParts(boundary, parts[1..]);
    PartEncapsulated(boundary, parts[0]);
    EncPartsHead(boundary, parts);
    Regrouped(CRLF, own, rest);
    assert Texts(parts)[1..] == Texts(parts[1..]);
    if |parts| == 1 {
      assert Texts(parts[1..]) == [] && rest == [];
    } else {
      PartsEncapsulated(boundary, parts[1..]);
    }
  }

  // ---------------------------------------------------------------- how often a form closes

  function Size(boundary: Bytes, texts: seq<Bytes>): nat {
    if texts == [] then 0 else |Encapsulation(boundary, texts[0])| + Size(boundary, texts[1..])
  }

  /** The bytes of the closing delimiters. */
  function Closings(boundary: Bytes, parts: seq<Part>): nat {
    if parts == [] then 0
    else (if parts[0].final then |Close(boundary)| else 0) + Closings(boundary, parts[1..])
  }

  lemma {:induction false} PartsSize(boundary: Bytes, parts: seq<Part>)
    requires forall i :: 0 <= i < |parts| ==> !parts[i].initial
    ensures |EncParts(boundary, parts)| == Size(boundary, Texts(parts)) + Closings(boundary, parts)
    decreases |parts|
  {
    hide EncPart, BodyPartText, Encapsulation, Close;
    if parts != [] {
      PartEncapsulated(boundary, parts[0]);
      EncPartsHead(boundary, parts);
      assert Texts(parts)[1..] == Texts(parts[1..]);
      PartsSize(boundary, parts[1..]);
    }
  }

  lemma OpenedSize(boundary: Bytes, parts: seq<Part>)
    requires parts != [] && parts[0].initial && OpensFirst(parts)
    ensures |EncParts(boundary, parts)| + 2 == Size(boundary, Texts(parts)) + Closings(boundary, parts)
  {
    assert Texts(parts)[1..] == Texts(parts[1..]);
    var own, rest := EncPart(boundary, parts[0]), EncParts(boundary, parts[1..]);
    PartEncapsulated(boundary, parts[0]);
    hide EncPart, BodyPartText, Encapsulation, Close, EncParts;
    EncPartsHead(boundary, parts);
    assert |CRLF + own| == 2 + |own| && |own + rest| == |own| + |rest|;
    PartsSize(boundary, parts[1..]);
  }

  lemma {:induction false} FormSize(boundary: Bytes, texts: seq<Bytes>)
    ensures |Encapsulations(boundary, texts)| == Size(boundary, texts) + |Close(boundary)|
    decreases |texts|
  {
    hide Encapsulation, Close;
    if texts != [] { FormSize(boundary, texts[1..]); }
  }

  /** Closing more than once takes more bytes than closing once. */
  lemma {:induction false} ClosingsCount(boundary: Bytes, parts: seq<Part>)
    requires parts != [] && parts[|parts| - 1].final
    ensures Closings(boundary, parts) >= |Close(boundary)| > 0
    ensures !ClosesLast(parts) ==> Closings(boundary, parts) >= 2 * |Close(boundary)|
    decreases |parts|
  {
    assert |Close(boundary)| > 0;
    hide Close;
    if |parts| == 1 {
      assert Closings(boundary, parts[1..]) == 0;
    } else {
      ClosingsCount(boundary, parts[1..]);
      if !ClosesLast(parts) && !parts[0].final {
        var i :| 0 <= i < |parts| - 1 && parts[i].final;
        assert parts[1..][i - 1].final;
      }
    }
  }

  /**
   The form, on any call: one opening delimiter, a delimiter between neighbours and one closing delimiter,
   if and only if no part before the last carries the closing mark of an earlier call. No parts make nothing.
   */
  lemma EncodesTheForm(boundary: Bytes, parts: seq<Part>)
    requires OpensFirst(parts)
    ensures parts == [] ==> EncParts(boundary, Marked(parts)) == []
    ensures parts != [] ==>
              (IsForm(boundary, EncParts(boundary, Marked(parts)), Texts(parts)) <==> ClosesLast(parts))
  {
    if parts != [] {
      var marked, texts := Marked(parts), Texts(parts);
      assert texts == Texts(marked);
      assert ClosesLast(marked) <==> ClosesLast(parts);
      FormCloses(boundary, texts);
      if ClosesLast(parts) {
        MarkedEncapsulated(boundary, marked);
        hide *;
        SameAfter(CRLF, EncParts(boundary, marked), Form(boundary, texts));
      } else {
        OpenedSize(boundary, marked);
        FormSize(boundary, texts);
        ClosingsCount(boundary, marked);
        hide *;
        assert |CRLF + Form(boundary, texts)| == 2 + |Form(boundary, texts)|;
      }
    }
  }

  lemma SameAfter(a: Bytes, b: Bytes, c: Bytes)
    requires a + b == a + c
    ensures b == c
  {
    assert b == (a + b)[|a|..] && c == (a + c)[|a|..];
  }

  // ---------------------------------------------------------------- later calls

  /** The parts of a later call: those of the first call with its marks, and those appended since. */
  lemma LaterMarks(parts: seq<Part>, more: seq<Part>)
    requires Unmarked(parts) && Unmarked(more) && parts != [] && more != []
    ensures var earlier, added := Drained(Marked(parts)), more[|more| - 1 := more[|more| - 1].(final := true)];
            && Marked(earlier + more) == earlier + added
            && Texts(earlier) == Texts(Drained(parts)) && Texts(added) == Texts(more)
            && earlier[0].initial && OpensFirst(earlier) && ClosesLast(earlier) && earlier[|earlier| - 1].final
            && ClosesLast(added) && forall i :: 0 <= i < |added| ==> !added[i].initial
  {
    hide BodyPartText;
    var earlier, added := Drained(Marked(parts)), more[|more| - 1 := more[|more| - 1].(final := true)];
    forall i | 0 <= i < |parts|
      ensures BodyPartText(earlier[i]) == BodyPartText(Drained(parts)[i])
    {
      SameText(earlier[i], Drained(parts)[i]);
    }
    forall i | 0 <= i < |more|
      ensures BodyPartText(added[i]) == BodyPartText(more[i])
    {
      SameText(added[i], more[i]);
    }
  }

  lemma SameText(p: Part, q: Part)
    requires p.headers == q.headers && p.body == q.body
    ensures BodyPartText(p) == BodyPartText(q)
  {
  }

  /**
   A later call after more appends: the marks of the first call stay, so the form closes behind the parts
   of that call, whose streams are at their ends, and the parts appended since follow behind its end.
   */
  lemma LaterCallCloses(boundary: Bytes, parts: seq<Part>, more: seq<Part>)
    requires Unmarked(parts) && Unmarked(more) && parts != [] && more != []
    ensures EncParts(boundary, Marked(Drained(Marked(parts)) + more))
         == Form(boundary, Texts(Drained(parts))) + Encapsulations(boundary, Texts(more))
  {
    var earlier, added := Drained(Marked(parts)), more[|more| - 1 := more[|more| - 1].(final := true)];
    LaterMarks(parts, more);
    hide *;
    EncPartsConcat(boundary, earlier, added);
    PartsEncapsulated(boundary, added);
    MarkedEncapsulated(boundary, earlier);
    FormCloses(boundary, Texts(earlier));
    SameAfter(CRLF, EncParts(boundary, earlier), Form(boundary, Texts(earlier)));
  }
}
