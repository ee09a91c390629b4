/** The required-field check of pb_decode_noinit in terms of the input: which tags were met, and which fields are
    missing. */
module RequiredFields {
  import opened Bits
  import opened Pb
  import opened IterSpec
  import opened DecodeSpec
  import opened Lookup

  /** The tags the loop reads, known or not. */
  function TagsMet(d: seq<Field>, st: State, s: seq<Byte>): set<nat>
    requires InRange(d, st)
    decreases |s|
  {
    if s == [] || !DecodeTag(s).Tag? then {}
    else
      {DecodeTag(s).tag} +
      match Step(d, st, s)
      case Continue(st', rest) => TagsMet(d, st', rest)
      case _ => {}
  }

  /** Field i is the required field with index k, and pb_decode_noinit checks it. */
  predicate RequiredAt(d: seq<Field>, i: nat, k: nat)
  {
    i < |d| && d[i].htype.Required? && RequiredBefore(d, i) == k && k < PB_MAX_REQUIRED_FIELDS
  }

  /** The required field with index k has its tag among those met. */
  ghost predicate Met(d: seq<Field>, met: set<nat>, k: nat)
  {
    exists i: nat :: RequiredAt(d, i, k) && d[i].tag in met
  }

  lemma FieldKeepsSeen(d: seq<Field>, st: State, i: nat, wireType: nat, s: seq<Byte>)
    requires InRange(d, st) && i < |d|
    ensures var r := DecodeField(d, st, i, wireType, s); !r.Stop? && (r.Continue? ==> r.state.seen == st.seen)
  {
  }

  /** One round of the loop marks exactly the required field whose tag it met. */
  lemma StepMarks(d: seq<Field>, st: State, s: seq<Byte>, k: nat)
    requires InRange(d, st) && UniqueTags(d) && StaticTable(d) && d != [] && DecodeTag(s).Tag?
    ensures !Step(d, st, s).Stop?
    ensures Step(d, st, s).Continue? ==>
            (k in Step(d, st, s).state.seen <==> k in st.seen || Met(d, {DecodeTag(s).tag}, k))
  {
    var Tag(tag, wireType, rest) := DecodeTag(s);
    FindIndependent(d, st.pos, st.pos, tag);
    match Find(d, st.pos, tag)
    case None =>
      forall i: nat | RequiredAt(d, i, k) ensures d[i].tag != tag {
        assert StaticField(d[i]) && !Matches(d, i, tag);
      }
    case Some(j) =>
      if EnterFixed(d, st, j).Some? {
        var st1 := EnterFixed(d, st, j).value;
        FieldKeepsSeen(d, MarkSeen(d, st1, j), j, wireType, rest);
        MarkSeenMeets(d, st1, j, k);
      }
  }

  lemma MarkSeenMeets(d: seq<Field>, st: State, j: nat, k: nat)
    requires InRange(d, st) && UniqueTags(d) && j < |d|
    ensures k in MarkSeen(d, st, j).seen <==> k in st.seen || Met(d, {d[j].tag}, k)
  {
    assert k in MarkSeen(d, st, j).seen <==> k in st.seen || RequiredAt(d, j, k);
    assert RequiredAt(d, j, k) ==> d[j].tag in {d[j].tag};
    forall i: nat | RequiredAt(d, i, k) && d[i].tag in {d[j].tag} ensures i == j {}
  }

  lemma MetEither(d: seq<Field>, a: set<nat>, b: set<nat>, k: nat)
    ensures Met(d, a + b, k) <==> Met(d, a, k) || Met(d, b, k)
  {
    if i: nat :| RequiredAt(d, i, k) && d[i].tag in a {
      assert d[i].tag in a + b;
    }
    if i: nat :| RequiredAt(d, i, k) && d[i].tag in b {
      assert d[i].tag in a + b;
    }
  }

  /** The indices marked at the end are those of the required fields whose tags the loop has met. */
  lemma {:induction false} SeenAreMet(d: seq<Field>, st: State, s: seq<Byte>, k: nat)
    requires InRange(d, st) && UniqueTags(d) && StaticTable(d) && d != [] && Loop(d, st, s).Done?
    ensures k in Loop(d, st, s).state.seen <==> k in st.seen || Met(d, TagsMet(d, st, s), k)
    decreases |s|
  {
    if s == [] || !DecodeTag(s).Tag? {
      assert !Met(d, {}, k);
    } else {
      StepMarks(d, st, s, k);
      var Continue(st', rest) := Step(d, st, s);
      SeenAreMet(d, st', rest, k);
      MetEither(d, {DecodeTag(s).tag}, TagsMet(d, st', rest), k);
    }
  }

  lemma {:induction false} RequiredIndex(d: seq<Field>, n: nat, k: nat) returns (i: nat)
    requires n <= |d| && k < RequiredBefore(d, n)
    ensures i < n && d[i].htype.Required? && RequiredBefore(d, i) == k
  {
    if k == RequiredBefore(d, n - 1) {
      i := n - 1;
    } else {
      i := RequiredIndex(d, n - 1, k);
    }
  }

  lemma {:induction false} IndexBelow(d: seq<Field>, i: nat, n: nat)
    requires i < n <= |d| && d[i].htype.Required?
    ensures RequiredBefore(d, i) < RequiredBefore(d, n)
    decreases n
  {
    if i + 1 == n {
    } else {
      IndexBelow(d, i, n - 1);
    }
  }

  /** The tag of each required field, among those with index below 64, was met. */
  ghost predicate RequiredMet(d: seq<Field>, met: set<nat>)
  {
    forall i :: 0 <= i < |d| && d[i].htype.Required? && RequiredBefore(d, i) < PB_MAX_REQUIRED_FIELDS ==>
      d[i].tag in met
  }

  lemma SeenMeansMet(d: seq<Field>, seen: set<nat>, met: set<nat>)
    requires forall k: nat :: k in seen <==> Met(d, met, k)
    ensures AllSeen(d, seen) <==> RequiredMet(d, met)
  {
    if AllSeen(d, seen) {
      forall i | 0 <= i < |d| && d[i].htype.Required? && RequiredBefore(d, i) < PB_MAX_REQUIRED_FIELDS
        ensures d[i].tag in met
      {
        IndexBelow(d, i, |d|);
        assert Met(d, met, RequiredBefore(d, i));
        var j: nat :| RequiredAt(d, j, RequiredBefore(d, i)) && d[j].tag in met;
        SameIndex(d, i, j);
      }
    }
    if RequiredMet(d, met) {
      forall k | 0 <= k < RequiredBefore(d, |d|) && k < PB_MAX_REQUIRED_FIELDS ensures k in seen {
        var i := RequiredIndex(d, |d|, k);
        assert RequiredAt(d, i, k) && d[i].tag in met;
      }
    }
  }

  lemma SameIndex(d: seq<Field>, i: nat, j: nat)
    requires i < |d| && j < |d| && d[i].htype.Required? && d[j].htype.Required? &&
             RequiredBefore(d, i) == RequiredBefore(d, j)
    ensures i == j
  {
    if i < j {
      IndexBelow(d, i, j);
    } else if j < i {
      IndexBelow(d, j, i);
    }
  }

  /** When nothing else is wrong with the input, decoding fails exactly when the tag of some required field, among the
      first 64, was not met. */
  lemma FailsWhenMissing(d: seq<Field>, m: seq<Slot>, s: seq<Byte>)
    requires |m| == |d| && UniqueTags(d) && StaticTable(d)
    requires Loop(d, Start(m), s).Done? && FixedComplete(d, Loop(d, Start(m), s).state)
    ensures DecodeNoinit(d, s, m).Some? <==> RequiredMet(d, TagsMet(d, Start(m), s))
  {
    if d != [] {
      var seen, met := Loop(d, Start(m), s).state.seen, TagsMet(d, Start(m), s);
      forall k: nat ensures k in seen <==> Met(d, met, k) {
        SeenAreMet(d, Start(m), s, k);
      }
      SeenMeansMet(d, seen, met);
    }
  }
}
