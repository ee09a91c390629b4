/** Uses of a MultipartFormData in which its encodings go wrong without an error: encoding it a second time, and
    writing to a stream that has no space at first. */
module MultipartRuns {
  import opened Bits
  import opened MultipartGrammar
  import opened MultipartSpec
  import opened MultipartFormData

  // ---------------------------------------------------------------- encoding a second time

  /** The bytes of all bodies. */
  function BodyBytes(parts: seq<Part>): nat
  {
    if parts == [] then 0 else BodyBytes(parts[..|parts| - 1]) + |parts[|parts| - 1].body|
  }

  lemma EmptiedLength(boundary: seq<Byte>, p: Part)
    ensures |EncodePart(boundary, p)| == |EncodePart(boundary, Emptied(p))| + |p.body|
  {
  }

  lemma {:induction false} BodiesAddLength(boundary: seq<Byte>, parts: seq<Part>)
    ensures |EncodeParts(boundary, parts)| == |EncodeParts(boundary, AllEmptied(parts))| + BodyBytes(parts)
  {
    if parts == [] {
    } else {
      var last := |parts| - 1;
      assert AllEmptied(parts)[..last] == AllEmptied(parts[..last]);
      BodiesAddLength(boundary, parts[..last]);
      EmptiedLength(boundary, parts[last]);
    }
  }

  lemma {:induction false} NoBodyBytes(parts: seq<Part>)
    ensures BodyBytes(parts) == 0 <==> AllEmptied(parts) == parts
  {
    if parts == [] {
    } else {
      var last := |parts| - 1;
      var before, p := parts[..last], parts[last];
      NoBodyBytes(before);
      assert AllEmptied(parts) == AllEmptied(before) + [Emptied(p)];
      assert parts == before + [p];
      assert AllEmptied(parts)[..last] == AllEmptied(before) && AllEmptied(parts)[last] == Emptied(p);
    }
  }

  /** What encode returns the second time, when nothing was appended in between: the first result again exactly when all
      bodies are empty, since their streams have been read. */
  lemma SecondEncodingDropsBodies(boundary: seq<Byte>, parts: seq<Part>)
    ensures EncodeParts(boundary, Flagged(AllEmptied(Flagged(parts)))) == EncodeParts(boundary, Flagged(parts)) <==>
            AllEmptied(parts) == parts
  {
    var flagged := Flagged(parts);
    FlagsStay(parts);
    BodiesAddLength(boundary, flagged);
    NoBodyBytes(flagged);
  }

  /** Setting the flags again changes nothing, and flags and bodies do not depend on each other. */
  lemma FlagsStay(parts: seq<Part>)
    ensures Flagged(AllEmptied(Flagged(parts))) == AllEmptied(Flagged(parts))
    ensures AllEmptied(Flagged(parts)) == Flagged(parts) <==> AllEmptied(parts) == parts
  {
    var flagged := Flagged(parts);
    assert forall i :: 0 <= i < |parts| ==> flagged[i].body == parts[i].body;
    assert AllEmptied(flagged) == flagged ==> forall i :: 0 <= i < |parts| ==> AllEmptied(flagged)[i] == flagged[i];
    assert AllEmptied(parts) == parts ==> forall i :: 0 <= i < |parts| ==> AllEmptied(parts)[i] == parts[i];
  }

  /** All streams of the form are good. */
  ghost predicate Sound(form: MultipartFormData)
    reads form, form.bodyParts, form.Streams()
  {
    form.Valid() && !form.failed && forall s :: s in form.Streams() ==> s.failAt.None?
  }

  /** The parts of the form with one more. */
  ghost function With(parts: seq<Part>, headers: seq<Header>, body: seq<Byte>): seq<Part>
  {
    parts + [Part(headers, body, false, false)]
  }

  method AppendEncode(form: MultipartFormData, stream: InputStream, headers: seq<Header>)
    returns (r: Outcome<seq<Byte>>)
    requires Sound(form) && stream.Valid() && stream !in form.Streams() && stream.failAt.None?
    modifies form, form.bodyParts, form.Streams(), stream
    ensures var parts := With(old(form.Views()), headers, old(stream.Remaining()));
            r == Ok(EncodeParts(form.boundary, Flagged(parts)))
  {
    form.Append(stream, headers);
    r := form.Encode();
  }

  /** Encode, append, encode: whatever the parts were, the second result has a final boundary in its middle, and the
      bodies of the first are missing from it. */
  method EncodeAppendEncode(form: MultipartFormData, stream: InputStream, headers: seq<Header>)
      returns (first: Outcome<seq<Byte>>, second: Outcome<seq<Byte>>)
    requires Sound(form) && form.bodyParts != []
    requires stream.Valid() && stream.failAt.None? && stream !in form.Streams()
    modifies form, form.bodyParts, form.Streams(), stream
    ensures var parts := old(form.Views());
            var parts' := With(AllEmptied(Flagged(parts)), headers, old(stream.Remaining()));
            && first == Ok(EncodeParts(form.boundary, Flagged(parts)))
            && second == Ok(EncodeParts(form.boundary, Flagged(parts')))
            && !NoLeftover(parts') && second.value != MultipartBody(form.boundary, BodyParts(parts'))
  {
    ghost var parts := form.Views();
    first := form.Encode();
    LeavesFinal(form.boundary, parts, form.Views(), headers, stream.Remaining());
    second := AppendEncode(form, stream, headers);
  }

  lemma LeavesFinal(boundary: seq<Byte>, parts: seq<Part>, emptied: seq<Part>, headers: seq<Header>, body: seq<Byte>)
    requires parts != [] && emptied == AllEmptied(Flagged(parts)) && FirstStaysFirst(emptied)
    ensures var parts' := With(emptied, headers, body);
            !NoLeftover(parts') && EncodeParts(boundary, Flagged(parts')) != MultipartBody(boundary, BodyParts(parts'))
  {
    var last := |parts| - 1;
    var parts' := With(emptied, headers, body);
    assert parts'[last] == emptied[last];
    FramedUnlessLeftover(boundary, parts');
  }

  // ---------------------------------------------------------------- an output stream without space

  /** The stream has no space when it is first asked, and has it from then on: writeEncodedData reports success, and
      what it wrote is not the encoding. */
  method WriteWithoutSpace(form: MultipartFormData) returns (outputStream: OutputStream, ok: bool)
    requires Sound(form) && form.bodyParts != []
    modifies form.bodyParts, form.Streams()
    ensures ok && outputStream.fullAt == {0} && outputStream.failAt.None?
    ensures outputStream.written != EncodeParts(form.boundary, Flagged(old(form.Views())))
  {
    outputStream := new OutputStream([], {0}, None);
    ok := form.WriteEncodedData(outputStream);
    assert 0 in outputStream.fullAt;
  }
}
