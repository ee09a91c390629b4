/** The multipart/form-data framing of MultipartFormData.swift, and when it is a multipart body. */
module MultipartSpec {
  import opened Bits
  import opened MultipartGrammar

  /** A body part: its headers, what its stream still holds, and its two boundary flags. */
  datatype Part = Part(headers: seq<Header>, body: seq<Byte>, hasInitialBoundary: bool, hasFinalBoundary: bool)

  datatype BoundaryType = Initial | Encapsulated | FinalBoundary

  /** boundaryData */
  function BoundaryData(t: BoundaryType, boundary: seq<Byte>): seq<Byte>
  {
    match t
    case Initial => DASHES + boundary + CRLF
    case Encapsulated => CRLF + DASHES + boundary + CRLF
    case FinalBoundary => CRLF + DASHES + boundary + DASHES + CRLF
  }

  function HeaderLines(headers: seq<Header>): seq<Byte>
  {
    if headers == [] then [] else headers[0].name + COLON + headers[0].value + CRLF + HeaderLines(headers[1..])
  }

  /** encodeHeaders */
  function EncodeHeaders(headers: seq<Header>): seq<Byte>
  {
    HeaderLines(headers) + CRLF
  }

  function InitialData(boundary: seq<Byte>, p: Part): seq<Byte>
  {
    BoundaryData(if p.hasInitialBoundary then Initial else Encapsulated, boundary)
  }

  function FinalData(boundary: seq<Byte>, p: Part): seq<Byte>
  {
    if p.hasFinalBoundary then BoundaryData(FinalBoundary, boundary) else []
  }

  /** The bytes of a part between its boundaries. */
  function BodyPart(p: Part): seq<Byte>
  {
    EncodeHeaders(p.headers) + p.body
  }

  function BodyParts(parts: seq<Part>): (r: seq<seq<Byte>>)
    ensures |r| == |parts|
  {
    seq(|parts|, i requires 0 <= i < |parts| => BodyPart(parts[i]))
  }

  /** What a part contributes, as its flags say. */
  function EncodePart(boundary: seq<Byte>, p: Part): seq<Byte>
  {
    InitialData(boundary, p) + BodyPart(p) + FinalData(boundary, p)
  }

  function EncodeParts(boundary: seq<Byte>, parts: seq<Part>): seq<Byte>
  {
    if parts == [] then []
    else
      var last := |parts| - 1;
      EncodeParts(boundary, parts[..last]) + EncodePart(boundary, parts[last])
  }

  /** `bodyParts.first?.hasInitialBoundary = true; bodyParts.last?.hasFinalBoundary = true` */
  function Flagged(parts: seq<Part>): (r: seq<Part>)
    ensures |r| == |parts|
  {
    if parts == [] then []
    else
      var started := parts[0 := parts[0].(hasInitialBoundary := true)];
      started[|parts| - 1 := started[|parts| - 1].(hasFinalBoundary := true)]
  }

  /** A part whose stream has been read to its end. */
  function Emptied(p: Part): Part
  {
    p.(body := [])
  }

  function AllEmptied(parts: seq<Part>): (r: seq<Part>)
    ensures |r| == |parts|
  {
    seq(|parts|, i requires 0 <= i < |parts| => Emptied(parts[i]))
  }

  // ---------------------------------------------------------------- the flags produce the grammar

  /** Only the first part opens, and only the last part closes. */
  ghost predicate WellFlagged(parts: seq<Part>)
  {
    forall i :: 0 <= i < |parts| ==>
      (parts[i].hasInitialBoundary <==> i == 0) && (parts[i].hasFinalBoundary <==> i == |parts| - 1)
  }

  lemma Associates(a: seq<Byte>, b: seq<Byte>, c: seq<Byte>)
    ensures (a + b) + c == a + (b + c)
  {
  }

  /** Each flag combination, in the terms of the grammar. */
  lemma PartFrames(boundary: seq<Byte>, p: Part)
    ensures EncodePart(boundary, p) ==
            (if p.hasInitialBoundary then Opening(boundary, BodyPart(p)) else Encapsulation(boundary, BodyPart(p))) +
            if p.hasFinalBoundary then Closing(boundary) else []
  {
  }

  lemma LastPart(boundary: seq<Byte>, parts: seq<Part>, before: seq<Part>, p: Part)
    requires parts == before + [p]
    ensures EncodeParts(boundary, parts) == EncodeParts(boundary, before) + EncodePart(boundary, p)
  {
    assert parts[..|parts| - 1] == before;
  }

  lemma {:induction false} EncapsulationsAppend(boundary: seq<Byte>, parts: seq<seq<Byte>>, p: seq<Byte>)
    ensures Encapsulations(boundary, parts + [p]) == Encapsulations(boundary, parts) + Encapsulation(boundary, p)
  {
    if parts == [] {
      assert parts + [p] == [p];
    } else {
      assert (parts + [p])[1..] == parts[1..] + [p];
      EncapsulationsAppend(boundary, parts[1..], p);
      Associates(Encapsulation(boundary, parts[0]), Encapsulations(boundary, parts[1..]), Encapsulation(boundary, p));
    }
  }

  /** The parts before the last one, opened by the first. */
  ghost predicate Opens(parts: seq<Part>)
  {
    forall i :: 0 <= i < |parts| ==> (parts[i].hasInitialBoundary <==> i == 0) && !parts[i].hasFinalBoundary
  }

  lemma OpenPart(boundary: seq<Byte>, p: Part)
    requires !p.hasFinalBoundary
    ensures EncodePart(boundary, p) ==
            if p.hasInitialBoundary then Opening(boundary, BodyPart(p)) else Encapsulation(boundary, BodyPart(p))
  {
    PartFrames(boundary, p);
  }

  lemma {:induction false} OpeningParts(boundary: seq<Byte>, parts: seq<Part>)
    requires parts != [] && Opens(parts)
    ensures EncodeParts(boundary, parts) ==
            Opening(boundary, BodyPart(parts[0])) + Encapsulations(boundary, BodyParts(parts[1..]))
    decreases |parts|
  {
    var last := |parts| - 1;
    var before, p := parts[..last], parts[last];
    assert parts == before + [p];
    LastPart(boundary, parts, before, p);
    OpenPart(boundary, p);
    if last == 0 {
      assert before == [] && BodyParts(parts[1..]) == [];
    } else {
      OpeningParts(boundary, before);
      assert BodyParts(parts[1..]) == BodyParts(before[1..]) + [BodyPart(p)];
      OpeningGrows(boundary, Opening(boundary, BodyPart(parts[0])), BodyParts(before[1..]), BodyPart(p));
    }
  }

  lemma OpeningGrows(boundary: seq<Byte>, opening: seq<Byte>, parts: seq<seq<Byte>>, p: seq<Byte>)
    ensures opening + Encapsulations(boundary, parts) + Encapsulation(boundary, p) ==
            opening + Encapsulations(boundary, parts + [p])
  {
    EncapsulationsAppend(boundary, parts, p);
    Associates(opening, Encapsulations(boundary, parts), Encapsulation(boundary, p));
  }

  lemma ClosedPart(boundary: seq<Byte>, p: Part)
    requires p.hasFinalBoundary
    ensures EncodePart(boundary, p) == EncodePart(boundary, p.(hasFinalBoundary := false)) + Closing(boundary)
  {
    PartFrames(boundary, p);
    OpenPart(boundary, p.(hasFinalBoundary := false));
  }

  /** The closing flag of the last part adds the final boundary. */
  lemma ClosesLast(boundary: seq<Byte>, before: seq<Part>, p: Part, q: Part)
    requires p.hasFinalBoundary && q == p.(hasFinalBoundary := false)
    ensures EncodeParts(boundary, before + [p]) == EncodeParts(boundary, before + [q]) + Closing(boundary)
  {
    LastPart(boundary, before + [p], before, p);
    LastPart(boundary, before + [q], before, q);
    ClosedPart(boundary, p);
    Associates(EncodeParts(boundary, before), EncodePart(boundary, q), Closing(boundary));
  }

  /** With the flags on the first and the last part only, the parts form a multipart body. */
  lemma FlagsFrame(boundary: seq<Byte>, parts: seq<Part>)
    requires WellFlagged(parts)
    ensures EncodeParts(boundary, parts) == MultipartBody(boundary, BodyParts(parts))
  {
    if parts != [] {
      var last := |parts| - 1;
      var before, p, q := parts[..last], parts[last], parts[last].(hasFinalBoundary := false);
      assert parts == before + [p];
      ClosesLast(boundary, before, p, q);
      OpeningParts(boundary, before + [q]);
      assert BodyParts((before + [q])[1..]) == BodyParts(parts)[1..];
    }
  }

  /** The same headers and bodies. */
  ghost predicate SameContent(parts: seq<Part>, parts': seq<Part>)
  {
    |parts| == |parts'| && forall i :: 0 <= i < |parts| ==>
      parts[i].headers == parts'[i].headers && parts[i].body == parts'[i].body
  }

  lemma SameBytes(parts: seq<Part>, parts': seq<Part>)
    requires SameContent(parts, parts')
    ensures BodyParts(parts) == BodyParts(parts')
  {
  }

  /** The bytes of the final boundaries, n each. */
  function Finals(parts: seq<Part>, n: nat): nat
  {
    if parts == [] then 0 else Finals(parts[..|parts| - 1], n) + if parts[|parts| - 1].hasFinalBoundary then n else 0
  }

  /** A final boundary can only be left over from an earlier encoding, on a part that was then the last. */
  ghost predicate NoLeftover(parts: seq<Part>)
  {
    forall i :: 0 <= i < |parts| - 1 ==> !parts[i].hasFinalBoundary
  }

  /** Only the first part can have been first before. */
  ghost predicate FirstStaysFirst(parts: seq<Part>)
  {
    forall i :: 0 < i < |parts| ==> !parts[i].hasInitialBoundary
  }

  /** The parts with the closing flag cleared. */
  function Cleared(parts: seq<Part>): (r: seq<Part>)
    ensures |r| == |parts|
  {
    seq(|parts|, i requires 0 <= i < |parts| => parts[i].(hasFinalBoundary := false))
  }

  lemma PartLength(boundary: seq<Byte>, p: Part)
    ensures |EncodePart(boundary, p)| ==
            |EncodePart(boundary, p.(hasFinalBoundary := false))| +
            if p.hasFinalBoundary then |Closing(boundary)| else 0
  {
    if p.hasFinalBoundary {
      ClosedPart(boundary, p);
    } else {
      assert p == p.(hasFinalBoundary := false);
    }
  }

  lemma ClearedLast(boundary: seq<Byte>, before: seq<Part>, p: Part)
    ensures EncodeParts(boundary, Cleared(before + [p])) ==
            EncodeParts(boundary, Cleared(before)) + EncodePart(boundary, p.(hasFinalBoundary := false))
  {
    LastPart(boundary, Cleared(before + [p]), Cleared(before), p.(hasFinalBoundary := false));
  }

  /** Each closing flag adds one final boundary. */
  lemma {:induction false} FinalsAddLength(boundary: seq<Byte>, parts: seq<Part>)
    ensures |EncodeParts(boundary, parts)| ==
            |EncodeParts(boundary, Cleared(parts))| + Finals(parts, |Closing(boundary)|)
  {
    if parts == [] {
    } else {
      var last := |parts| - 1;
      var before, p := parts[..last], parts[last];
      assert parts == before + [p];
      FinalsAddLength(boundary, before);
      LastPart(boundary, parts, before, p);
      ClearedLast(boundary, before, p);
      PartLength(boundary, p);
    }
  }

  lemma {:induction false} SomeFinal(parts: seq<Part>, i: nat, n: nat)
    requires i < |parts| && parts[i].hasFinalBoundary
    ensures Finals(parts, n) >= n
  {
    var last := |parts| - 1;
    if i == last {
    } else {
      SomeFinal(parts[..last], i, n);
    }
  }

  /** What encode and writeEncodedData emit frames the parts exactly when no part before the last still carries the
      closing flag of an earlier encoding. */
  lemma FramedUnlessLeftover(boundary: seq<Byte>, parts: seq<Part>)
    requires FirstStaysFirst(parts)
    ensures EncodeParts(boundary, Flagged(parts)) == MultipartBody(boundary, BodyParts(parts)) <==> NoLeftover(parts)
  {
    var clean := Flagged(Cleared(parts));
    FlagsFrame(boundary, clean);
    SameBytes(clean, parts);
    if NoLeftover(parts) {
      FlagsClean(parts);
    } else {
      LeftoverLengthens(boundary, parts, clean);
    }
  }

  lemma FlagsClean(parts: seq<Part>)
    requires NoLeftover(parts)
    ensures Flagged(parts) == Flagged(Cleared(parts))
  {
  }

  lemma LeftoverLengthens(boundary: seq<Byte>, parts: seq<Part>, clean: seq<Part>)
    requires FirstStaysFirst(parts) && !NoLeftover(parts) && clean == Flagged(Cleared(parts))
    ensures |EncodeParts(boundary, Flagged(parts))| > |EncodeParts(boundary, clean)|
  {
    FinalsAddLength(boundary, Flagged(parts));
    FinalsAddLength(boundary, clean);
    ClearsAlike(parts);
    OneFinal(clean, |Closing(boundary)|);
    TwoFinals(parts, |Closing(boundary)|);
  }

  lemma ClearsAlike(parts: seq<Part>)
    ensures Cleared(Flagged(parts)) == Cleared(Flagged(Cleared(parts)))
  {
  }

  lemma TwoFinals(parts: seq<Part>, n: nat)
    requires !NoLeftover(parts)
    ensures Finals(Flagged(parts), n) >= n + n
  {
    var flagged := Flagged(parts);
    var last := |parts| - 1;
    var i :| 0 <= i < last && parts[i].hasFinalBoundary;
    assert flagged[..last][i].hasFinalBoundary;
    SomeFinal(flagged[..last], i, n);
  }

  lemma OneFinal(parts: seq<Part>, n: nat)
    requires WellFlagged(parts) && parts != []
    ensures Finals(parts, n) == n
  {
    NoFinals(parts[..|parts| - 1], n);
  }

  lemma {:induction false} NoFinals(parts: seq<Part>, n: nat)
    requires forall i :: 0 <= i < |parts| ==> !parts[i].hasFinalBoundary
    ensures Finals(parts, n) == 0
  {
    if parts == [] {
    } else {
      NoFinals(parts[..|parts| - 1], n);
    }
  }
}
