/** What a receiver reads from the bytes MultipartFormData.swift encodes: the headers and the bodies that were put in,
    and exactly when. */
module MultipartReader {
  import opened Bits
  import opened MultipartGrammar
  import opened MultipartSpec

  // ---------------------------------------------------------------- one part

  /** No line end in a name or a value, and no colon and space in a name. */
  ghost predicate CleanHeader(h: Header)
  {
    Lacks(h.name, CRLF) && Lacks(h.name, COLON) && Lacks(h.value, CRLF)
  }

  ghost predicate CleanHeaders(headers: seq<Header>)
  {
    forall i :: 0 <= i < |headers| ==> CleanHeader(headers[i])
  }

  function Line(h: Header): seq<Byte>
  {
    h.name + COLON + h.value
  }

  lemma {:induction false} LacksTwo(a: seq<Byte>, b: seq<Byte>)
    requires a != [] ==> a[|a| - 1] != CRLF[0] || b == [] || b[0] != CRLF[1]
    ensures Lacks(a + b, CRLF) <==> Lacks(a, CRLF) && Lacks(b, CRLF)
    decreases |a|
  {
    if a == [] {
      assert a + b == b;
      assert Lacks(a, CRLF);
    } else {
      assert (a + b)[1..] == a[1..] + b;
      LacksTwo(a[1..], b);
      LacksTail(a + b, CRLF);
      LacksTail(a, CRLF);
      PairStarts(a, b);
    }
  }

  lemma PairStarts(a: seq<Byte>, b: seq<Byte>)
    requires a != [] && (a[|a| - 1] != CRLF[0] || b == [] || b[0] != CRLF[1])
    ensures StartsWith(a + b, CRLF) <==> StartsWith(a, CRLF)
  {
    if |a + b| >= 2 {
      assert (a + b)[..2] == [(a + b)[0], (a + b)[1]];
    }
    if |a| >= 2 {
      assert a[..2] == [a[0], a[1]];
    }
  }

  /** The colon and space never make a line end with what stands around them. */
  lemma LineLacks(h: Header)
    ensures Lacks(Line(h), CRLF) <==> Lacks(h.name, CRLF) && Lacks(h.value, CRLF)
  {
    assert Line(h) == h.name + (COLON + h.value);
    LacksTwo(h.name, COLON + h.value);
    LacksTwo(COLON, h.value);
    forall k | 0 <= k <= |COLON| ensures !StartsWith(COLON[k..], CRLF) {
    }
  }

  lemma LinesSplit(headers: seq<Header>, body: seq<Byte>)
    requires headers != []
    ensures EncodeHeaders(headers) + body == Line(headers[0]) + CRLF + (EncodeHeaders(headers[1..]) + body)
  {
  }

  /** One line is read as its header, and the rest after it, exactly when it is clean. */
  lemma LineReads(h: Header, t: seq<Byte>)
    requires CleanHeader(h)
    ensures var s, rest := Line(h) + CRLF + t, ReadContent(t);
            ReadContent(s) == if rest.None? then None else Some(Content([h] + rest.value.headers, rest.value.body))
  {
    var s := Line(h) + CRLF + t;
    LineLacks(h);
    FirstOccurrence(Line(h), CRLF, t);
    FirstOccurrence(h.name, COLON, h.value);
    assert s[..|Line(h)|] == Line(h) && s[|Line(h)| + |CRLF|..] == t;
    assert s[..|h.name|] == h.name && s[|h.name| + |COLON|..|Line(h)|] == h.value;
  }

  lemma {:induction false} CleanReads(headers: seq<Header>, body: seq<Byte>)
    requires CleanHeaders(headers)
    ensures ReadContent(EncodeHeaders(headers) + body) == Some(Content(headers, body))
  {
    if headers == [] {
      assert EncodeHeaders(headers) + body == [] + CRLF + body;
      assert Lacks([], CRLF);
      FirstOccurrence([], CRLF, body);
      assert ([] + CRLF + body)[|CRLF|..] == body;
    } else {
      CleanReads(headers[1..], body);
      LinesSplit(headers, body);
      LineReads(headers[0], EncodeHeaders(headers[1..]) + body);
      assert [headers[0]] + headers[1..] == headers;
    }
  }

  /** What is read from any bytes are clean headers, and writing them again gives the bytes. */
  lemma {:induction false} ReadPrints(s: seq<Byte>)
    requires ReadContent(s).Some?
    ensures var c := ReadContent(s).value; CleanHeaders(c.headers) && s == EncodeHeaders(c.headers) + c.body
    decreases |s|
  {
    var end := IndexOf(s, CRLF).value;
    var after := s[end + |CRLF|..];
    Found(s, CRLF, end);
    if end == 0 {
      assert s == [] + CRLF + after;
    } else {
      var line := s[..end];
      var colon := IndexOf(line, COLON).value;
      var h := Header(s[..colon], s[colon + |COLON|..end]);
      Found(line, COLON, colon);
      assert line[..colon] == h.name && line[colon + |COLON|..] == h.value && line == Line(h);
      LineLacks(h);
      ReadPrints(after);
      LinesSplit(ReadContent(s).value.headers, ReadContent(s).value.body);
    }
  }

  /** A reader that looks at bytes only gets the headers and the body back if and only if the headers are clean. */
  lemma ContentReads(headers: seq<Header>, body: seq<Byte>)
    ensures ReadContent(EncodeHeaders(headers) + body) == Some(Content(headers, body)) <==> CleanHeaders(headers)
  {
    if CleanHeaders(headers) {
      CleanReads(headers, body);
    }
    if ReadContent(EncodeHeaders(headers) + body).Some? {
      ReadPrints(EncodeHeaders(headers) + body);
    }
  }

  // ---------------------------------------------------------------- the framing

  function ContentOf(p: Part): Content
  {
    Content(p.headers, p.body)
  }

  function Contents(parts: seq<Part>): (r: seq<Content>)
    ensures |r| == |parts|
  {
    seq(|parts|, i requires 0 <= i < |parts| => ContentOf(parts[i]))
  }

  ghost predicate AllClean(parts: seq<Part>)
  {
    forall i :: 0 <= i < |parts| ==> CleanHeaders(parts[i].headers)
  }

  /** Only the bytes written for a part say its content. */
  lemma SayIsWritten(parts: seq<Part>, bytes: seq<seq<Byte>>)
    ensures Say(bytes, Contents(parts)) <==> bytes == BodyParts(parts) && AllClean(parts)
  {
    if |bytes| == |parts| {
      forall i | 0 <= i < |parts|
        ensures ReadContent(bytes[i]) == Some(ContentOf(parts[i])) <==>
                bytes[i] == BodyPart(parts[i]) && CleanHeaders(parts[i].headers)
      {
        ContentReads(parts[i].headers, parts[i].body);
        if ReadContent(bytes[i]).Some? {
          ReadPrints(bytes[i]);
        }
      }
      if Say(bytes, Contents(parts)) {
        assert forall i :: 0 <= i < |parts| ==> bytes[i] == BodyPart(parts[i]);
      }
    }
  }

  /** What encode and writeEncodedData emit is a multipart body of the headers and bodies put in if and only if the
      headers are clean and no part before the last still carries the closing flag of an earlier encoding. */
  lemma MultipartExactly(boundary: seq<Byte>, parts: seq<Part>)
    requires FirstStaysFirst(parts)
    ensures IsMultipart(boundary, Contents(parts), EncodeParts(boundary, Flagged(parts))) <==>
            NoLeftover(parts) && AllClean(parts)
  {
    var bytes := EncodeParts(boundary, Flagged(parts));
    FramedUnlessLeftover(boundary, parts);
    if IsMultipart(boundary, Contents(parts), bytes) {
      var said :| Say(said, Contents(parts)) && bytes == MultipartBody(boundary, said);
      SayIsWritten(parts, said);
    }
    if NoLeftover(parts) && AllClean(parts) {
      SayIsWritten(parts, BodyParts(parts));
    }
  }

  // ---------------------------------------------------------------- the whole body

  /** What follows the first part: the further parts, each behind its delimiter, and the close delimiter. */
  function Tail(boundary: seq<Byte>, parts: seq<seq<Byte>>): seq<Byte>
  {
    Encapsulations(boundary, parts) + Closing(boundary)
  }

  lemma TailSplits(boundary: seq<Byte>, parts: seq<seq<Byte>>)
    ensures Tail(boundary, parts) == Delimiter(boundary) +
            if parts == [] then DASHES + CRLF else CRLF + (parts[0] + Tail(boundary, parts[1..]))
  {
    if parts == [] {
      assert Tail(boundary, parts) == Closing(boundary);
    } else {
      Associates(Encapsulation(boundary, parts[0]), Encapsulations(boundary, parts[1..]), Closing(boundary));
      assert Encapsulation(boundary, parts[0]) + Tail(boundary, parts[1..]) ==
             Delimiter(boundary) + (CRLF + (parts[0] + Tail(boundary, parts[1..])));
    }
  }

  /** No carriage return in the boundary: the delimiter cannot overlap itself. */
  lemma DelimiterNoOverlap(boundary: seq<Byte>)
    requires CRLF[0] !in boundary
    ensures NoOverlap(Delimiter(boundary))
  {
    assert Delimiter(boundary)[1..] == [10] + DASHES + boundary;
  }

  /** Clean headers, and no delimiter inside the part. */
  ghost predicate Delimitable(boundary: seq<Byte>, p: Part)
  {
    CleanHeaders(p.headers) && Lacks(BodyPart(p), Delimiter(boundary))
  }

  ghost predicate AllDelimitable(boundary: seq<Byte>, parts: seq<Part>)
  {
    forall i :: 0 <= i < |parts| ==> Delimitable(boundary, parts[i])
  }

  /** The reader finds the end of the first part exactly when the part is delimitable. */
  lemma FirstPart(boundary: seq<Byte>, p: Part, t: seq<Byte>)
    requires CRLF[0] !in boundary
    ensures var d, s := Delimiter(boundary), BodyPart(p) + Delimiter(boundary) + t;
            && IndexOf(s, d).Some? && IndexOf(s, d).value <= |BodyPart(p)|
            && (Delimitable(boundary, p) ==> IndexOf(s, d) == Some(|BodyPart(p)|))
            && (ReadContent(s[..IndexOf(s, d).value]) == Some(ContentOf(p)) <==> Delimitable(boundary, p))
  {
    var d, s := Delimiter(boundary), BodyPart(p) + Delimiter(boundary) + t;
    DelimiterNoOverlap(boundary);
    FirstOccurrence(BodyPart(p), d, t);
    ContentReads(p.headers, p.body);
    var end := IndexOf(s, d).value;
    if end == |BodyPart(p)| {
      assert s[..end] == BodyPart(p);
    } else if ReadContent(s[..end]).Some? {
      ReadPrints(s[..end]);
    }
  }

  /** Where the reader goes on behind a delimitable part. */
  lemma PartEnds(boundary: seq<Byte>, p: Part, after: seq<Byte>, s: seq<Byte>)
    requires CRLF[0] !in boundary && Delimitable(boundary, p) && s == BodyPart(p) + Delimiter(boundary) + after
    ensures after == DASHES + CRLF ==> ReadParts(boundary, s) == Some([ContentOf(p)])
    ensures StartsWith(after, CRLF) ==>
              var rest := ReadParts(boundary, after[|CRLF|..]);
              ReadParts(boundary, s) == if rest.None? then None else Some([ContentOf(p)] + rest.value)
  {
    FirstPart(boundary, p, after);
    assert s[|BodyPart(p)| + |Delimiter(boundary)|..] == after;
  }

  /** A part that is not delimitable is not the first one read. */
  lemma OtherFirst(boundary: seq<Byte>, p: Part, after: seq<Byte>, s: seq<Byte>)
    requires CRLF[0] !in boundary && !Delimitable(boundary, p) && s == BodyPart(p) + Delimiter(boundary) + after
    ensures ReadParts(boundary, s).Some? ==>
              ReadParts(boundary, s).value != [] && ReadParts(boundary, s).value[0] != ContentOf(p)
  {
    FirstPart(boundary, p, after);
  }

  lemma LastRead(boundary: seq<Byte>, p: Part)
    requires CRLF[0] !in boundary
    ensures ReadParts(boundary, BodyPart(p) + Tail(boundary, [])) == Some([ContentOf(p)]) <==> Delimitable(boundary, p)
  {
    var s, after := BodyPart(p) + Tail(boundary, []), DASHES + CRLF;
    TailSplits(boundary, []);
    assert s == BodyPart(p) + Delimiter(boundary) + after;
    if Delimitable(boundary, p) {
      PartEnds(boundary, p, after, s);
    } else {
      OtherFirst(boundary, p, after, s);
    }
  }

  lemma NextRead(boundary: seq<Byte>, p: Part, q: seq<Byte>, rest: seq<seq<Byte>>, contents: seq<Content>)
    requires CRLF[0] !in boundary
    ensures ReadParts(boundary, BodyPart(p) + Tail(boundary, [q] + rest)) == Some([ContentOf(p)] + contents) <==>
            Delimitable(boundary, p) && ReadParts(boundary, q + Tail(boundary, rest)) == Some(contents)
  {
    var s, after := BodyPart(p) + Tail(boundary, [q] + rest), CRLF + (q + Tail(boundary, rest));
    TailSplits(boundary, [q] + rest);
    assert ([q] + rest)[1..] == rest;
    assert s == BodyPart(p) + Delimiter(boundary) + after;
    assert after[|CRLF|..] == q + Tail(boundary, rest);
    if Delimitable(boundary, p) {
      PartEnds(boundary, p, after, s);
      var read := ReadParts(boundary, q + Tail(boundary, rest));
      assert read.Some? ==> ([ContentOf(p)] + read.value)[1..] == read.value;
      assert ([ContentOf(p)] + contents)[1..] == contents;
    } else {
      OtherFirst(boundary, p, after, s);
    }
  }

  lemma PartsSplit(boundary: seq<Byte>, parts: seq<Part>)
    requires parts != []
    ensures BodyParts(parts) == [BodyPart(parts[0])] + BodyParts(parts[1..])
    ensures BodyParts(parts)[0] == BodyPart(parts[0]) && BodyParts(parts)[1..] == BodyParts(parts[1..])
    ensures Contents(parts) == [ContentOf(parts[0])] + Contents(parts[1..])
    ensures AllDelimitable(boundary, parts) <==>
            Delimitable(boundary, parts[0]) && AllDelimitable(boundary, parts[1..])
  {
    assert forall i :: 1 <= i < |parts| ==> parts[i] == parts[1..][i - 1];
  }

  lemma {:induction false} PartsRead(boundary: seq<Byte>, p: Part, rest: seq<Part>)
    requires CRLF[0] !in boundary
    ensures ReadParts(boundary, BodyPart(p) + Tail(boundary, BodyParts(rest))) ==
            Some([ContentOf(p)] + Contents(rest)) <==>
            Delimitable(boundary, p) && AllDelimitable(boundary, rest)
    decreases |rest|
  {
    if rest == [] {
      LastRead(boundary, p);
      assert BodyParts(rest) == [] && [ContentOf(p)] + Contents(rest) == [ContentOf(p)];
    } else {
      PartsSplit(boundary, rest);
      PartsRead(boundary, rest[0], rest[1..]);
      NextRead(boundary, p, BodyPart(rest[0]), BodyParts(rest[1..]), Contents(rest));
    }
  }

  lemma OpensWith(boundary: seq<Byte>, first: seq<Byte>, rest: seq<seq<Byte>>)
    ensures ReadMultipart(boundary, Opening(boundary, first) + Encapsulations(boundary, rest) + Closing(boundary)) ==
            ReadParts(boundary, first + Tail(boundary, rest))
  {
    var open := DASHES + boundary + CRLF;
    var bytes := open + (first + Tail(boundary, rest));
    Associates(Opening(boundary, first), Encapsulations(boundary, rest), Closing(boundary));
    assert Opening(boundary, first) + Tail(boundary, rest) == bytes;
    assert bytes[|open|..] == first + Tail(boundary, rest) && bytes[..|open|] == open;
  }

  /** The whole way: a receiver that knows the boundary, which holds no carriage return, reads exactly the headers and
      the bodies put in, if and only if the headers are clean and no part holds the delimiter. */
  lemma MultipartReads(boundary: seq<Byte>, parts: seq<Part>)
    requires CRLF[0] !in boundary && FirstStaysFirst(parts) && NoLeftover(parts)
    ensures ReadMultipart(boundary, EncodeParts(boundary, Flagged(parts))) == Some(Contents(parts)) <==>
            AllDelimitable(boundary, parts)
  {
    FramedUnlessLeftover(boundary, parts);
    if parts == [] {
      assert Contents(parts) == [];
    } else {
      PartsSplit(boundary, parts);
      OpensWith(boundary, BodyPart(parts[0]), BodyParts(parts[1..]));
      PartsRead(boundary, parts[0], parts[1..]);
    }
  }

  lemma ExamplePart(p: Part)
    requires p == Part([Header([110], [118])], [120], true, true)
    ensures EncodePart([66], p) ==
            [45, 45, 66, 13, 10, 110, 58, 32, 118, 13, 10, 13, 10, 120, 13, 10, 45, 45, 66, 45, 45, 13, 10]
  {
    assert HeaderLines(p.headers) == [110, 58, 32, 118, 13, 10] + HeaderLines([]);
    assert BodyPart(p) == [110, 58, 32, 118, 13, 10, 13, 10, 120];
    assert InitialData([66], p) == [45, 45, 66, 13, 10];
    assert FinalData([66], p) == [13, 10, 45, 45, 66, 45, 45, 13, 10];
  }

  /** One part, byte by byte: the boundary B, the header "n: v" and the body x. */
  lemma Example()
    ensures EncodeParts([66], Flagged([Part([Header([110], [118])], [120], false, false)])) ==
            [45, 45, 66, 13, 10, 110, 58, 32, 118, 13, 10, 13, 10, 120, 13, 10, 45, 45, 66, 45, 45, 13, 10]
  {
    var p := Part([Header([110], [118])], [120], true, true);
    assert Flagged([Part([Header([110], [118])], [120], false, false)]) == [p];
    ExamplePart(p);
    LastPart([66], [p], [], p);
  }
}
