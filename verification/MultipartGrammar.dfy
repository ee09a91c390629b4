/** The grammar of section 5.1.1 of RFC 2046, and a reader of it that looks at bytes only. */
module MultipartGrammar {
  import opened Bits

  const CRLF: seq<Byte> := [13, 10]
  const DASHES: seq<Byte> := [45, 45]
  const COLON: seq<Byte> := [58, 32]

  datatype Header = Header(name: seq<Byte>, value: seq<Byte>)

  /** What one body part says. */
  datatype Content = Content(headers: seq<Header>, body: seq<Byte>)

  // ---------------------------------------------------------------- finding bytes

  predicate StartsWith(s: seq<Byte>, p: seq<Byte>)
  {
    |p| <= |s| && s[..|p|] == p
  }

  /** Where p first occurs in s. */
  function IndexOf(s: seq<Byte>, p: seq<Byte>): (r: Option<nat>)
    ensures r.Some? ==> r.value + |p| <= |s|
  {
    if StartsWith(s, p) then Some(0)
    else if s == [] then None
    else
      match IndexOf(s[1..], p)
      case Some(k) => Some(k + 1)
      case None => None
  }

  /** p does not occur in a. */
  ghost predicate Lacks(a: seq<Byte>, p: seq<Byte>)
  {
    forall k :: 0 <= k <= |a| ==> !StartsWith(a[k..], p)
  }

  /** The first byte of p does not come again in it, so that two occurrences of p cannot overlap. */
  predicate NoOverlap(p: seq<Byte>)
  {
    p != [] && p[0] !in p[1..]
  }

  lemma LacksTail(a: seq<Byte>, p: seq<Byte>)
    requires a != []
    ensures Lacks(a, p) <==> !StartsWith(a, p) && Lacks(a[1..], p)
  {
    assert forall k :: 0 <= k <= |a[1..]| ==> a[1..][k..] == a[k + 1..];
    if !StartsWith(a, p) && Lacks(a[1..], p) {
      forall k | 0 <= k <= |a| ensures !StartsWith(a[k..], p) {
        if k == 0 {
          assert a[0..] == a;
        } else {
          assert a[1..][k - 1..] == a[k..];
        }
      }
    }
    if Lacks(a, p) {
      assert a[0..] == a;
    }
  }

  /** In a + p + t the first occurrence is right behind a exactly when a lacks p. */
  lemma {:induction false} FirstOccurrence(a: seq<Byte>, p: seq<Byte>, t: seq<Byte>)
    requires NoOverlap(p)
    ensures IndexOf(a + p + t, p) == Some(|a|) <==> Lacks(a, p)
    ensures IndexOf(a + p + t, p).Some? && IndexOf(a + p + t, p).value <= |a|
  {
    var s := a + p + t;
    if a == [] {
      assert s[..|p|] == p;
    } else {
      assert s[1..] == a[1..] + p + t;
      FirstOccurrence(a[1..], p, t);
      LacksTail(a, p);
      StartsInside(a, p, t);
    }
  }

  lemma StartsInside(a: seq<Byte>, p: seq<Byte>, t: seq<Byte>)
    requires NoOverlap(p) && a != []
    ensures StartsWith(a + p + t, p) <==> StartsWith(a, p)
  {
    var s := a + p + t;
    if |a| < |p| {
      assert s[|a|] == p[0] && s[..|p|][|a|] == s[|a|];
      assert p[|a|] in p[1..];
    } else {
      assert s[..|p|] == a[..|p|];
    }
  }

  lemma PrefixStarts(s: seq<Byte>, k: nat, p: seq<Byte>)
    requires k <= |s|
    ensures StartsWith(s[..k], p) ==> StartsWith(s, p)
  {
    if StartsWith(s[..k], p) {
      assert s[..|p|] == s[..k][..|p|];
    }
  }

  lemma {:induction false} FoundThere(s: seq<Byte>, p: seq<Byte>, k: nat)
    requires IndexOf(s, p) == Some(k)
    ensures s[k..k + |p|] == p
  {
    if StartsWith(s, p) {
    } else {
      FoundThere(s[1..], p, k - 1);
      assert s[1..][k - 1..k - 1 + |p|] == s[k..k + |p|];
    }
  }

  lemma {:induction false} FoundFirst(s: seq<Byte>, p: seq<Byte>, k: nat)
    requires p != [] && IndexOf(s, p) == Some(k)
    ensures Lacks(s[..k], p)
  {
    if StartsWith(s, p) {
      assert s[..0] == [] && Lacks([], p);
    } else {
      FoundFirst(s[1..], p, k - 1);
      assert s[..k][1..] == s[1..][..k - 1];
      LacksTail(s[..k], p);
      PrefixStarts(s, k, p);
    }
  }

  /** What IndexOf finds is an occurrence, and the first one. */
  lemma Found(s: seq<Byte>, p: seq<Byte>, k: nat)
    requires p != [] && IndexOf(s, p) == Some(k)
    ensures s == s[..k] + p + s[k + |p|..] && Lacks(s[..k], p)
  {
    FoundThere(s, p, k);
    FoundFirst(s, p, k);
    assert s == s[..k] + s[k..k + |p|] + s[k + |p|..];
  }

  // ---------------------------------------------------------------- body parts

  /** Header fields up to the first empty line, each split at the first colon and space; the body is what follows. */
  function ReadContent(s: seq<Byte>): Option<Content>
    decreases |s|
  {
    match IndexOf(s, CRLF)
    case None => None
    case Some(end) =>
      var after := s[end + |CRLF|..];
      if end == 0 then Some(Content([], after))
      else
        match IndexOf(s[..end], COLON)
        case None => None
        case Some(colon) =>
          match ReadContent(after)
          case None => None
          case Some(rest) =>
            Some(Content([Header(s[..colon], s[colon + |COLON|..end])] + rest.headers, rest.body))
  }

  // ---------------------------------------------------------------- the grammar

  /** delimiter := CRLF "--" boundary */
  function Delimiter(boundary: seq<Byte>): seq<Byte>
  {
    CRLF + DASHES + boundary
  }

  /** encapsulation := delimiter transport-padding CRLF body-part, without padding */
  function Encapsulation(boundary: seq<Byte>, part: seq<Byte>): seq<Byte>
  {
    Delimiter(boundary) + CRLF + part
  }

  function Encapsulations(boundary: seq<Byte>, parts: seq<seq<Byte>>): seq<Byte>
  {
    if parts == [] then [] else Encapsulation(boundary, parts[0]) + Encapsulations(boundary, parts[1..])
  }

  /** dash-boundary CRLF body-part */
  function Opening(boundary: seq<Byte>, part: seq<Byte>): seq<Byte>
  {
    DASHES + boundary + CRLF + part
  }

  /** close-delimiter := delimiter "--", and the line end this encoder adds */
  function Closing(boundary: seq<Byte>): seq<Byte>
  {
    Delimiter(boundary) + DASHES + CRLF
  }

  /** multipart-body := dash-boundary CRLF body-part *encapsulation close-delimiter CRLF, without preamble */
  function MultipartBody(boundary: seq<Byte>, parts: seq<seq<Byte>>): seq<Byte>
  {
    if parts == [] then []
    else Opening(boundary, parts[0]) + Encapsulations(boundary, parts[1..]) + Closing(boundary)
  }

  /** body-part := MIME-part-headers [CRLF *OCTET]: the bytes of each part say its content. */
  ghost predicate Say(parts: seq<seq<Byte>>, contents: seq<Content>)
  {
    |parts| == |contents| && forall i :: 0 <= i < |parts| ==> ReadContent(parts[i]) == Some(contents[i])
  }

  /** The bytes are a multipart body of these contents. */
  ghost predicate IsMultipart(boundary: seq<Byte>, contents: seq<Content>, bytes: seq<Byte>)
  {
    exists parts :: Say(parts, contents) && bytes == MultipartBody(boundary, parts)
  }

  // ---------------------------------------------------------------- a reader

  /** The parts from here on: each ends at the first delimiter, and the last one at a close delimiter. */
  function ReadParts(boundary: seq<Byte>, s: seq<Byte>): Option<seq<Content>>
    decreases |s|
  {
    match IndexOf(s, Delimiter(boundary))
    case None => None
    case Some(end) =>
      var after := s[end + |Delimiter(boundary)|..];
      match ReadContent(s[..end])
      case None => None
      case Some(content) =>
        if after == DASHES + CRLF then Some([content])
        else if StartsWith(after, CRLF) then
          match ReadParts(boundary, after[|CRLF|..])
          case None => None
          case Some(rest) => Some([content] + rest)
        else None
  }

  /** What a receiver that knows the boundary makes of the bytes. */
  function ReadMultipart(boundary: seq<Byte>, s: seq<Byte>): Option<seq<Content>>
  {
    if s == [] then Some([])
    else if StartsWith(s, DASHES + boundary + CRLF) then ReadParts(boundary, s[|DASHES + boundary + CRLF|..])
    else None
  }
}
