/** MultipartFormData.swift: the in-memory encoder and the streaming one, over streams that hand out and accept any
    number of bytes at a time. */
module MultipartFormData {
  import opened Bits
  import opened MultipartGrammar
  import opened MultipartSpec

  /** InputStream. The k-th read returns at most pace[k] bytes; it may report bytes available at its end, and fail. */
  class InputStream {
    const content: seq<Byte>
    const pace: seq<nat>
    const eager: bool
    const failAt: Option<nat>
    var position: nat
    var readCount: nat
    var streamError: bool

    ghost predicate Valid()
      reads this
    {
      position <= |content| && !streamError
    }

    function Remaining(): seq<Byte>
      reads this
      requires position <= |content|
    {
      content[position..]
    }

    constructor (content: seq<Byte>, pace: seq<nat>, eager: bool, failAt: Option<nat>)
      ensures Valid() && Remaining() == content && this.failAt == failAt
    {
      this.content, this.pace, this.eager, this.failAt := content, pace, eager, failAt;
      position, readCount, streamError := 0, 0, false;
    }

    predicate HasBytesAvailable()
      reads this
    {
      position < |content| || eager
    }

    /** Between one and maxLength bytes while there are any; none at the end; or a stream error. */
    method Read(maxLength: nat) returns (bytes: seq<Byte>)
      requires Valid() && maxLength > 0
      modifies this
      ensures position <= |content| && (streamError ==> failAt.Some?)
      ensures !streamError ==> old(Remaining()) == bytes + Remaining() && |bytes| <= maxLength
      ensures !streamError && old(Remaining()) != [] ==> bytes != []
    {
      var attempt := readCount;
      readCount := readCount + 1;
      if failAt == Some(attempt) {
        streamError := true;
        return [];
      }
      var count := if attempt < |pace| && 0 < pace[attempt] < maxLength then pace[attempt] else maxLength;
      if count > |content| - position {
        count := |content| - position;
      }
      bytes := content[position..position + count];
      position := position + count;
    }
  }

  /** What an output stream has been through: the bytes it took, and how often it was asked for space. */
  datatype Sent = Sent(written: seq<Byte>, checks: nat)

  /** OutputStream. The k-th write takes at most pace[k] bytes and at least one; there can be no space, and it can
      fail. */
  class OutputStream {
    const pace: seq<nat>
    const fullAt: set<nat>
    const failAt: Option<nat>
    var written: seq<Byte>
    var writes: nat
    var checks: nat
    var streamError: bool

    constructor (pace: seq<nat>, fullAt: set<nat>, failAt: Option<nat>)
      ensures Now() == Sent([], 0) && !streamError && this.fullAt == fullAt && this.failAt == failAt
    {
      this.pace, this.fullAt, this.failAt := pace, fullAt, failAt;
      written, writes, checks, streamError := [], 0, 0, false;
    }

    ghost function Now(): Sent
      reads this
    {
      Sent(written, checks)
    }

    method HasSpaceAvailable() returns (space: bool)
      modifies this
      ensures streamError == old(streamError) && space == (old(checks) !in fullAt)
      ensures Now() == Sent(old(written), old(checks) + 1)
    {
      space := checks !in fullAt;
      checks := checks + 1;
    }

    method Write(buffer: seq<Byte>, maxLength: nat) returns (bytesWritten: nat)
      requires 0 < maxLength <= |buffer| && !streamError
      modifies this
      ensures checks == old(checks) && (streamError ==> failAt.Some?)
      ensures !streamError ==> 1 <= bytesWritten <= maxLength && written == old(written) + buffer[..bytesWritten]
    {
      var attempt := writes;
      writes := writes + 1;
      if failAt == Some(attempt) {
        streamError := true;
        return 0;
      }
      bytesWritten := if attempt < |pace| && 0 < pace[attempt] < maxLength then pace[attempt] else maxLength;
      written := written + buffer[..bytesWritten];
    }
  }

  /** Space is refused at one of the checks from `from` on, up to `to`. */
  predicate Refused(fullAt: set<nat>, from: nat, to: nat)
  {
    exists k :: k in fullAt && from <= k < to
  }

  /** The outcome of writing `data` after `before` without an error: all of it, unless the stream refused space on the
      way; then some bytes are missing although nothing is reported. */
  ghost predicate Delivered(fullAt: set<nat>, before: Sent, data: seq<Byte>, after: Sent)
  {
    && after.checks >= before.checks + (if data != [] then 1 else 0)
    && if Refused(fullAt, before.checks, after.checks) then |after.written| < |before.written| + |data|
       else after.written == before.written + data
  }

  lemma DeliversBoth(fullAt: set<nat>, before: Sent, a: seq<Byte>, middle: Sent, b: seq<Byte>, after: Sent)
    requires Delivered(fullAt, before, a, middle) && Delivered(fullAt, middle, b, after)
    ensures Delivered(fullAt, before, a + b, after)
  {
    assert before.written + a + b == before.written + (a + b);
    RefusedBetween(fullAt, before.checks, middle.checks, after.checks);
  }

  lemma RefusedBetween(fullAt: set<nat>, from: nat, middle: nat, to: nat)
    requires from <= middle <= to
    ensures Refused(fullAt, from, to) <==> Refused(fullAt, from, middle) || Refused(fullAt, middle, to)
  {
  }

  lemma NextCheck(fullAt: set<nat>, from: nat, check: nat)
    requires from <= check
    ensures Refused(fullAt, from, check + 1) <==> Refused(fullAt, from, check) || check in fullAt
  {
  }

  datatype Outcome<T> = Ok(value: T) | Thrown

  /** write(_ buffer:to:) */
  method WriteBuffer(data: seq<Byte>, outputStream: OutputStream) returns (ok: bool)
    requires !outputStream.streamError
    modifies outputStream
    ensures ok == !outputStream.streamError && (!ok ==> outputStream.failAt.Some?)
    ensures ok ==> Delivered(outputStream.fullAt, old(outputStream.Now()), data, outputStream.Now())
  {
    ghost var before := outputStream.Now();
    var buffer := data;
    var bytesToWrite := |buffer|;
    while bytesToWrite > 0
      invariant 0 <= bytesToWrite <= |buffer| && (bytesToWrite > 0 ==> bytesToWrite == |buffer|)
      invariant !outputStream.streamError
      invariant !Refused(outputStream.fullAt, before.checks, outputStream.checks)
      invariant outputStream.checks >= before.checks + (if data != [] && bytesToWrite == 0 then 1 else 0)
      invariant before.written + data == outputStream.written + if bytesToWrite > 0 then buffer else []
      decreases bytesToWrite
    {
      NextCheck(outputStream.fullAt, before.checks, outputStream.checks);
      var space := outputStream.HasSpaceAvailable();
      if !space {
        return true;
      }
      ghost var sofar := outputStream.written;
      var bytesWritten := outputStream.Write(buffer, bytesToWrite);
      if outputStream.streamError {
        return false;
      }
      bytesToWrite := bytesToWrite - bytesWritten;
      assert sofar + buffer == sofar + buffer[..bytesWritten] + buffer[bytesWritten..];
      if bytesToWrite > 0 {
        buffer := buffer[bytesWritten..];
      }
    }
    ok := true;
  }

  const STREAM_BUFFER_SIZE: nat := 1024

  class BodyPart {
    const headers: seq<Header>
    const bodyStream: InputStream
    var hasInitialBoundary: bool
    var hasFinalBoundary: bool

    constructor (headers: seq<Header>, bodyStream: InputStream)
      ensures this.headers == headers && this.bodyStream == bodyStream && !hasInitialBoundary && !hasFinalBoundary
    {
      this.headers, this.bodyStream := headers, bodyStream;
      hasInitialBoundary, hasFinalBoundary := false, false;
    }

    ghost predicate Valid()
      reads this, bodyStream
    {
      bodyStream.Valid()
    }

    function View(): Part
      reads this, bodyStream
      requires bodyStream.position <= |bodyStream.content|
    {
      Part(headers, bodyStream.Remaining(), hasInitialBoundary, hasFinalBoundary)
    }
  }

  /** encodeBodyStream: everything the stream still holds, however it hands it out. */
  method EncodeBodyStream(bodyPart: BodyPart) returns (r: Outcome<seq<Byte>>)
    requires bodyPart.Valid()
    modifies bodyPart.bodyStream
    ensures r.Ok? == !bodyPart.bodyStream.streamError && (r.Thrown? ==> bodyPart.bodyStream.failAt.Some?)
    ensures r.Ok? ==> bodyPart.Valid() && bodyPart.bodyStream.Remaining() == []
    ensures r.Ok? ==> r.value == old(bodyPart.bodyStream.Remaining())
  {
    var inputStream := bodyPart.bodyStream;
    var encoded: seq<Byte> := [];
    while inputStream.HasBytesAvailable()
      invariant inputStream.Valid()
      invariant encoded + inputStream.Remaining() == old(bodyPart.bodyStream.Remaining())
      decreases |inputStream.Remaining()|
    {
      var buffer := inputStream.Read(STREAM_BUFFER_SIZE);
      if inputStream.streamError {
        return Thrown;
      }
      if |buffer| > 0 {
        encoded := encoded + buffer;
      } else {
        break;
      }
    }
    r := Ok(encoded);
  }

  /** writeBodyStream */
  method WriteBodyStream(bodyPart: BodyPart, outputStream: OutputStream) returns (ok: bool)
    requires bodyPart.Valid() && !outputStream.streamError
    modifies bodyPart.bodyStream, outputStream
    ensures ok == (!bodyPart.bodyStream.streamError && !outputStream.streamError)
    ensures bodyPart.bodyStream.streamError ==> bodyPart.bodyStream.failAt.Some?
    ensures outputStream.streamError ==> outputStream.failAt.Some?
    ensures ok ==> bodyPart.Valid() && bodyPart.bodyStream.Remaining() == []
    ensures ok ==> Delivered(outputStream.fullAt, old(outputStream.Now()), old(bodyPart.bodyStream.Remaining()),
                             outputStream.Now())
  {
    var inputStream := bodyPart.bodyStream;
    ghost var before, sent := outputStream.Now(), [];
    ghost var all := inputStream.Remaining();
    assert [] + all == all;
    while inputStream.HasBytesAvailable()
      invariant inputStream.Valid() && !outputStream.streamError
      invariant sent + inputStream.Remaining() == all
      invariant Delivered(outputStream.fullAt, before, sent, outputStream.Now())
      decreases |inputStream.Remaining()|
    {
      ghost var left := inputStream.Remaining();
      var buffer := inputStream.Read(STREAM_BUFFER_SIZE);
      if inputStream.streamError {
        return false;
      }
      if |buffer| > 0 {
        ghost var middle := outputStream.Now();
        ok := WriteBuffer(buffer, outputStream);
        if !ok {
          return;
        }
        Regroups(sent, buffer, inputStream.Remaining(), left);
        DeliversBoth(outputStream.fullAt, before, sent, middle, buffer, outputStream.Now());
        sent := sent + buffer;
      } else {
        break;
      }
    }
    assert sent == all;
    ok := true;
  }

  lemma Regroups(sent: seq<Byte>, buffer: seq<Byte>, rest: seq<Byte>, left: seq<Byte>)
    requires left == buffer + rest
    ensures (sent + buffer) + rest == sent + left
  {
  }

  /** encode(_ bodyPart:) */
  method EncodeBodyPart(boundary: seq<Byte>, bodyPart: BodyPart) returns (r: Outcome<seq<Byte>>)
    requires bodyPart.Valid()
    modifies bodyPart.bodyStream
    ensures r.Ok? == !bodyPart.bodyStream.streamError && (r.Thrown? ==> bodyPart.bodyStream.failAt.Some?)
    ensures r.Ok? ==> bodyPart.Valid() && bodyPart.View() == Emptied(old(bodyPart.View()))
    ensures r.Ok? ==> r.value == EncodePart(boundary, old(bodyPart.View()))
  {
    ghost var view := bodyPart.View();
    var initialData := BoundaryData(if bodyPart.hasInitialBoundary then Initial else Encapsulated, boundary);
    var headerData := EncodeHeaders(bodyPart.headers);
    var body := EncodeBodyStream(bodyPart);
    if body.Thrown? {
      return Thrown;
    }
    var encoded := initialData + headerData + body.value;
    if bodyPart.hasFinalBoundary {
      encoded := encoded + BoundaryData(FinalBoundary, boundary);
    }
    assert encoded == initialData + headerData + body.value + FinalData(boundary, view);
    PiecesMake(boundary, view);
    r := Ok(encoded);
  }

  lemma PiecesMake(boundary: seq<Byte>, p: Part)
    ensures InitialData(boundary, p) + EncodeHeaders(p.headers) + p.body + FinalData(boundary, p) ==
            EncodePart(boundary, p)
  {
    assert InitialData(boundary, p) + EncodeHeaders(p.headers) + p.body ==
           InitialData(boundary, p) + MultipartSpec.BodyPart(p);
  }

  /** write(_ bodyPart:to:) */
  method WriteBodyPart(boundary: seq<Byte>, bodyPart: BodyPart, outputStream: OutputStream) returns (ok: bool)
    requires bodyPart.Valid() && !outputStream.streamError
    modifies bodyPart.bodyStream, outputStream
    ensures ok == (!bodyPart.bodyStream.streamError && !outputStream.streamError)
    ensures bodyPart.bodyStream.streamError ==> bodyPart.bodyStream.failAt.Some?
    ensures outputStream.streamError ==> outputStream.failAt.Some?
    ensures ok ==> bodyPart.Valid() && bodyPart.View() == Emptied(old(bodyPart.View()))
    ensures ok ==> Delivered(outputStream.fullAt, old(outputStream.Now()), EncodePart(boundary, old(bodyPart.View())),
                             outputStream.Now())
  {
    ghost var view, before, fullAt := bodyPart.View(), outputStream.Now(), outputStream.fullAt;
    var initialData := BoundaryData(if bodyPart.hasInitialBoundary then Initial else Encapsulated, boundary);
    ok := WriteBuffer(initialData, outputStream);
    if !ok {
      return;
    }
    ghost var started := outputStream.Now();
    var headerData := EncodeHeaders(bodyPart.headers);
    ok := WriteBuffer(headerData, outputStream);
    if !ok {
      return;
    }
    ghost var headed := outputStream.Now();
    DeliversBoth(fullAt, before, initialData, started, headerData, headed);
    ok := WriteBodyStream(bodyPart, outputStream);
    if !ok {
      return;
    }
    ghost var sent := outputStream.Now();
    DeliversBoth(fullAt, before, initialData + headerData, headed, view.body, sent);
    if bodyPart.hasFinalBoundary {
      ok := WriteBuffer(BoundaryData(FinalBoundary, boundary), outputStream);
      if !ok {
        return;
      }
    }
    DeliversBoth(fullAt, before, initialData + headerData + view.body, sent, FinalData(boundary, view),
                 outputStream.Now());
    PiecesMake(boundary, view);
  }

  lemma PartsGrow(boundary: seq<Byte>, views: seq<Part>, i: nat)
    requires i < |views|
    ensures EncodeParts(boundary, views[..i + 1]) == EncodeParts(boundary, views[..i]) + EncodePart(boundary, views[i])
  {
    assert views[..i + 1] == views[..i] + [views[i]];
    LastPart(boundary, views[..i + 1], views[..i], views[i]);
  }

  lemma NeverEmpty(boundary: seq<Byte>, views: seq<Part>)
    ensures views != [] ==> EncodeParts(boundary, views) != []
  {
    if views != [] {
      assert EncodePart(boundary, views[|views| - 1]) != [];
    }
  }

  class MultipartFormData {
    const boundary: seq<Byte>
    var bodyParts: seq<BodyPart>
    /** bodyPartError */
    var failed: bool

    /** Each part has a stream of its own that has not failed, and only the first part has ever been first. */
    ghost predicate Valid()
      reads this, bodyParts, Streams()
    {
      && (forall i :: 0 <= i < |bodyParts| ==> bodyParts[i].Valid())
      && (forall i, j :: 0 <= i < j < |bodyParts| ==>
            bodyParts[i] != bodyParts[j] && bodyParts[i].bodyStream != bodyParts[j].bodyStream)
      && (forall i :: 0 < i < |bodyParts| ==> !bodyParts[i].hasInitialBoundary)
    }

    ghost function Streams(): set<InputStream>
      reads this
    {
      set p | p in bodyParts :: p.bodyStream
    }

    /** The parts as they are now. */
    ghost function Views(): (views: seq<Part>)
      requires Valid()
      reads this, bodyParts, Streams()
      ensures |views| == |bodyParts| && FirstStaysFirst(views)
    {
      seq(|bodyParts|,
          i requires 0 <= i < |bodyParts| reads this, bodyParts, Streams() requires bodyParts[i].Valid() =>
            bodyParts[i].View())
    }

    constructor (boundary: seq<Byte>)
      ensures Valid() && this.boundary == boundary && bodyParts == [] && !failed
    {
      this.boundary := boundary;
      bodyParts := [];
      failed := false;
    }

    /** append(_ stream:withLength:headers:) */
    method Append(stream: InputStream, headers: seq<Header>)
      requires Valid() && stream.Valid() && stream !in Streams()
      modifies this
      ensures Valid() && failed == old(failed)
      ensures Views() == old(Views()) + [Part(headers, stream.Remaining(), false, false)]
      ensures bodyParts != [] && bodyParts[..|bodyParts| - 1] == old(bodyParts) && fresh(bodyParts[|bodyParts| - 1])
      ensures Streams() == old(Streams()) + {stream}
    {
      var bodyPart := new BodyPart(headers, stream);
      bodyParts := bodyParts + [bodyPart];
    }

    /** `bodyParts.first?.hasInitialBoundary = true; bodyParts.last?.hasFinalBoundary = true` */
    method FlagEnds()
      requires Valid()
      modifies bodyParts
      ensures Valid() && Views() == Flagged(old(Views()))
    {
      if bodyParts != [] {
        bodyParts[0].hasInitialBoundary := true;
        bodyParts[|bodyParts| - 1].hasFinalBoundary := true;
      }
    }

    ghost predicate StreamFailed()
      reads this, Streams()
    {
      exists s :: s in Streams() && s.streamError && s.failAt.Some?
    }

    /** The parts from index i on are still as `views` says, the others have been read to their end. */
    ghost predicate Unread(views: seq<Part>, i: nat)
      reads this, bodyParts, Streams()
    {
      && Valid()
      && |views| == |bodyParts|
      && forall k :: 0 <= k < |bodyParts| ==> bodyParts[k].View() == if k < i then Emptied(views[k]) else views[k]
    }

    /** encode(_ bodyPart:) on part i. */
    method EncodeAt(i: nat, ghost views: seq<Part>) returns (r: Outcome<seq<Byte>>)
      requires Unread(views, i) && i < |bodyParts|
      modifies bodyParts[i].bodyStream
      ensures r.Ok? ==> Unread(views, i + 1) && r.value == EncodePart(boundary, views[i])
      ensures r.Thrown? ==> StreamFailed()
    {
      r := EncodeBodyPart(boundary, bodyParts[i]);
      if r.Ok? {
        forall k | 0 <= k < |bodyParts| && k != i
          ensures bodyParts[k].Valid() && bodyParts[k].View() == old(bodyParts[k].View())
        {
          assert bodyParts[k].bodyStream != bodyParts[i].bodyStream;
        }
      } else {
        assert bodyParts[i].bodyStream in Streams();
      }
    }

    /** write(_ bodyPart:to:) on part i. */
    method WriteAt(i: nat, ghost views: seq<Part>, outputStream: OutputStream) returns (ok: bool)
      requires Unread(views, i) && i < |bodyParts| && !outputStream.streamError
      modifies bodyParts[i].bodyStream, outputStream
      ensures ok ==> Unread(views, i + 1) && !outputStream.streamError
      ensures ok ==> Delivered(outputStream.fullAt, old(outputStream.Now()), EncodePart(boundary, views[i]),
                               outputStream.Now())
      ensures !ok ==> StreamFailed() || (outputStream.streamError && outputStream.failAt.Some?)
    {
      ok := WriteBodyPart(boundary, bodyParts[i], outputStream);
      if ok {
        forall k | 0 <= k < |bodyParts| && k != i
          ensures bodyParts[k].Valid() && bodyParts[k].View() == old(bodyParts[k].View())
        {
          assert bodyParts[k].bodyStream != bodyParts[i].bodyStream;
        }
      } else {
        assert bodyParts[i].bodyStream in Streams();
      }
    }

    /** The loop of encode, with the flags set. */
    method EncodeFlagged(ghost views: seq<Part>) returns (r: Outcome<seq<Byte>>)
      requires Unread(views, 0)
      modifies Streams()
      ensures r.Ok? ==> Unread(views, |bodyParts|) && r.value == EncodeParts(boundary, views)
      ensures r.Thrown? ==> StreamFailed()
    {
      var encoded: seq<Byte> := [];
      for i := 0 to |bodyParts|
        invariant Unread(views, i)
        invariant encoded == EncodeParts(boundary, views[..i])
      {
        assert bodyParts[i].bodyStream in Streams();
        var encodedData := EncodeAt(i, views);
        if encodedData.Thrown? {
          return Thrown;
        }
        PartsGrow(boundary, views, i);
        encoded := encoded + encodedData.value;
      }
      assert views[..|bodyParts|] == views;
      r := Ok(encoded);
    }

    /** encode */
    method Encode() returns (r: Outcome<seq<Byte>>)
      requires Valid()
      modifies bodyParts, Streams()
      ensures bodyParts == old(bodyParts) && (r.Ok? ==> Valid())
      ensures r.Thrown? ==> failed || StreamFailed()
      ensures r.Ok? ==> !failed && r.value == EncodeParts(boundary, Flagged(old(Views())))
      ensures r.Ok? ==> Views() == AllEmptied(Flagged(old(Views())))
    {
      if failed {
        return Thrown;
      }
      FlagEnds();
      ghost var views := Views();
      r := EncodeFlagged(views);
      assert r.Ok? ==> Views() == AllEmptied(views);
    }

    /** The loop of writeEncodedData, with the flags set. */
    method WriteFlagged(outputStream: OutputStream, ghost views: seq<Part>) returns (ok: bool)
      requires Unread(views, 0) && !outputStream.streamError
      modifies Streams(), outputStream
      ensures ok ==> Unread(views, |bodyParts|)
      ensures ok ==> Delivered(outputStream.fullAt, old(outputStream.Now()), EncodeParts(boundary, views),
                               outputStream.Now())
      ensures !ok ==> StreamFailed() || (outputStream.streamError && outputStream.failAt.Some?)
    {
      ghost var before, fullAt := outputStream.Now(), outputStream.fullAt;
      for i := 0 to |bodyParts|
        invariant Unread(views, i) && !outputStream.streamError
        invariant Delivered(fullAt, before, EncodeParts(boundary, views[..i]), outputStream.Now())
      {
        ghost var middle := outputStream.Now();
        assert bodyParts[i].bodyStream in Streams();
        ok := WriteAt(i, views, outputStream);
        if !ok {
          return;
        }
        PartsGrow(boundary, views, i);
        DeliversBoth(fullAt, before, EncodeParts(boundary, views[..i]), middle, EncodePart(boundary, views[i]),
                     outputStream.Now());
      }
      assert views[..|bodyParts|] == views;
      ok := true;
    }

    /** writeEncodedData, from the opened output stream on: without an error it writes exactly what encode returns, if
        and only if the stream never refused space. */
    method WriteEncodedData(outputStream: OutputStream) returns (ok: bool)
      requires Valid() && !outputStream.streamError
      modifies bodyParts, Streams(), outputStream
      ensures bodyParts == old(bodyParts) && (ok ==> Valid())
      ensures !ok ==> failed || StreamFailed() || (outputStream.streamError && outputStream.failAt.Some?)
      ensures ok ==> !failed && Views() == AllEmptied(Flagged(old(Views())))
      ensures ok ==> (outputStream.written == old(outputStream.written) + EncodeParts(boundary, Flagged(old(Views())))
                      <==> !Refused(outputStream.fullAt, old(outputStream.checks), outputStream.checks))
      ensures ok && bodyParts != [] ==> outputStream.checks > old(outputStream.checks)
    {
      if failed {
        return false;
      }
      FlagEnds();
      ghost var views := Views();
      ok := WriteFlagged(outputStream, views);
      assert ok ==> Views() == AllEmptied(views);
      NeverEmpty(boundary, views);
    }
  }
}
