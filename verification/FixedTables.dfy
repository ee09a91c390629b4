/** Several arrays of fixed count in one message: each has to be complete before the next one begins. */
module FixedTables {
  import opened Bits
  import opened Wire
  import opened Pb
  import opened EncodeSpec
  import opened DecodeSpec
  import opened RoundTrip
  import opened PackedArrays
  import opened FixedArrays

  /** What arrives of array i in a row, in any mixture of packed blocks and single entries. */
  datatype Group = Group(i: nat, chunks: seq<Chunk>)

  /** Groups of fixed-count arrays of the struct; one group ends where another array begins. */
  ghost predicate ValidGroups(d: seq<Field>, m: seq<Slot>, gs: seq<Group>)
    requires |m| == |d|
  {
    && (forall g :: 0 <= g < |gs| ==> ValidGroup(d, m, gs[g]))
    && (forall g :: 0 < g < |gs| ==> gs[g - 1].i != gs[g].i)
  }

  ghost predicate ValidGroup(d: seq<Field>, m: seq<Slot>, g: Group)
    requires |m| == |d|
  {
    && FixedScalar(d, g.i)
    && m[g.i].Many? && |m[g.i].items| <= d[g.i].arraySize
    && g.chunks != [] && forall k :: 0 <= k < |g.chunks| ==> ValidChunk(d[g.i], g.chunks[k])
  }

  function GroupsBytes(d: seq<Field>, gs: seq<Group>): Option<seq<Byte>>
    requires forall g :: 0 <= g < |gs| ==> gs[g].i < |d|
  {
    if gs == [] then Some([]) else Cat(ChunksBytes(d[gs[0].i], gs[0].chunks), GroupsBytes(d, gs[1..]))
  }

  /** The array is complete. */
  predicate Complete(d: seq<Field>, g: Group)
    requires g.i < |d|
  {
    |AllItems(g.chunks)| == d[g.i].arraySize
  }

  predicate AllComplete(d: seq<Field>, gs: seq<Group>)
    requires forall g :: 0 <= g < |gs| ==> gs[g].i < |d|
  {
    forall g :: 0 <= g < |gs| ==> Complete(d, gs[g])
  }

  /** The arrays hold what arrived last. */
  function Assigned(m: seq<Slot>, gs: seq<Group>): (r: seq<Slot>)
    requires forall g :: 0 <= g < |gs| ==> gs[g].i < |m|
    ensures |r| == |m|
    decreases |gs|
  {
    if gs == [] then m else Assigned(m[gs[0].i := Many(AllItems(gs[0].chunks))], gs[1..])
  }

  /** Where the decoder stands before the groups. */
  ghost predicate Ready(d: seq<Field>, st: State, gs: seq<Group>)
  {
    && InRange(d, st) && FixedComplete(d, st) && st.seen == {}
    && ValidGroups(d, st.m, gs)
    && (gs != [] ==> st.fixedField != Some(gs[0].i))
  }

  /** One complete group is in. */
  lemma GroupArrives(d: seq<Field>, st: State, gs: seq<Group>, b: seq<Byte>, t: seq<Byte>) returns (st': State)
    requires Ready(d, st, gs) && gs != [] && Complete(d, gs[0])
    requires ChunksBytes(d[gs[0].i], gs[0].chunks) == Some(b)
    ensures Ready(d, st', gs[1..]) && Loop(d, st, b + t) == Loop(d, st', t)
    ensures st'.m == st.m[gs[0].i := Many(AllItems(gs[0].chunks))]
  {
    var i, all := gs[0].i, AllItems(gs[0].chunks);
    assert ValidGroup(d, st.m, gs[0]);
    var before := st.m[i].items;
    StartsOver(before, all);
    ChunksOverlay(d, i, st, before, [], gs[0].chunks, b, t);
    st' := Received(d, i, st, before, all);
    StaysValid(d, st.m, st'.m, gs);
  }

  lemma StartsOver(before: seq<Value>, all: seq<Value>)
    ensures Overlay(before, []) == before && [] + all == all
    ensures |before| <= |all| ==> Overlay(before, all) == all
  {
  }

  lemma StaysValid(d: seq<Field>, m: seq<Slot>, m': seq<Slot>, gs: seq<Group>)
    requires |m| == |d| && gs != [] && ValidGroups(d, m, gs) && Complete(d, gs[0])
    requires m' == m[gs[0].i := Many(AllItems(gs[0].chunks))]
    ensures ValidGroups(d, m', gs[1..]) && (gs[1..] != [] ==> gs[1..][0].i != gs[0].i)
  {
    forall g | 0 <= g < |gs| - 1 ensures ValidGroup(d, m', gs[1..][g]) {
      assert ValidGroup(d, m, gs[g + 1]);
    }
  }

  /** An array that begins while another one is incomplete is rejected. */
  lemma NextIsRejected(d: seq<Field>, st: State, i: nat, cs: seq<Chunk>, b: seq<Byte>)
    requires FixedScalar(d, i) && InRange(d, st) && !FixedComplete(d, st) && st.fixedField != Some(i)
    requires cs != [] && ValidChunk(d[i], cs[0]) && ChunksBytes(d[i], cs) == Some(b)
    ensures forall t :: Loop(d, st, b + t) == LoopFail
  {
    forall t ensures Loop(d, st, b + t) == LoopFail {
      var first, rest, s := FirstChunk(d[i], cs, b, t);
      var wireType, p := ChunkTag(d[i], cs[0], first, s);
      LoopEnters(d, st, i, wireType, b + t, p);
    }
  }

  lemma ChunkTag(f: Field, c: Chunk, b: seq<Byte>, t: seq<Byte>) returns (wireType: nat, p: seq<Byte>)
    requires ChunkBytes(f, c) == Some(b)
    ensures wireType < 8 && b + t == TagBytes(wireType, f.tag) + p
  {
    var tag;
    if c.Packed? {
      wireType, tag := WT_STRING, TagBytes(WT_STRING, f.tag);
    } else {
      wireType, tag := WireTypeOf(f.ltype), TagBytes(WireTypeOf(f.ltype), f.tag);
    }
    p := b[|tag|..] + t;
  }

  /** How the loop ends when an array is incomplete: an error, or at the latest the final check. */
  ghost predicate Rejected(d: seq<Field>, r: LoopResult)
  {
    r.Done? ==> InRange(d, r.state) && !FixedComplete(d, r.state)
  }

  lemma GroupIsRejected(d: seq<Field>, st: State, gs: seq<Group>, b: seq<Byte>, t: seq<Byte>)
    requires Ready(d, st, gs) && gs != [] && !Complete(d, gs[0])
    requires ChunksBytes(d[gs[0].i], gs[0].chunks) == Some(b) && GroupsBytes(d, gs[1..]) == Some(t)
    ensures Rejected(d, Loop(d, st, b + t))
  {
    var i, all := gs[0].i, AllItems(gs[0].chunks);
    assert ValidGroup(d, st.m, gs[0]);
    var before := st.m[i].items;
    StartsOver(before, all);
    ChunksOverlay(d, i, st, before, [], gs[0].chunks, b, t);
    if |all| < d[i].arraySize {
      var st' := Received(d, i, st, before, all);
      if gs[1..] == [] {
        assert Loop(d, st', t) == Done(st', [], false);
      } else {
        assert ValidGroup(d, st.m, gs[1]);
        var first := ChunksBytes(d[gs[1].i], gs[1].chunks).value;
        NextIsRejected(d, st', gs[1].i, gs[1].chunks, first);
        assert t == first + GroupsBytes(d, gs[1..][1..]).value;
      }
    }
  }

  lemma {:induction false} GroupsArrive(d: seq<Field>, st: State, gs: seq<Group>, b: seq<Byte>)
    requires Ready(d, st, gs) && GroupsBytes(d, gs) == Some(b)
    ensures var r := Loop(d, st, b);
            if AllComplete(d, gs) then
              r.Done? && r.state.seen == {} && FixedComplete(d, r.state) && r.state.m == Assigned(st.m, gs)
            else Rejected(d, r)
    decreases |gs|
  {
    if gs == [] {
    } else {
      var first, rest := ChunksBytes(d[gs[0].i], gs[0].chunks).value, GroupsBytes(d, gs[1..]).value;
      if Complete(d, gs[0]) {
        var st' := GroupArrives(d, st, gs, first, rest);
        GroupsArrive(d, st', gs[1..], rest);
        assert AllComplete(d, gs) <==> AllComplete(d, gs[1..]) by {
          assert forall g :: 0 < g < |gs| ==> gs[g] == gs[1..][g - 1];
        }
      } else {
        GroupIsRejected(d, st, gs, first, rest);
      }
    }
  }

  /** A message of fixed-count arrays, each in any chunks and as often as it likes, decodes exactly when each time
      the total is the size of the array; the struct then holds what arrived last. */
  lemma GroupsResult(d: seq<Field>, m: seq<Slot>, gs: seq<Group>, b: seq<Byte>)
    requires |m| == |d| && WellFormed(d) && ValidGroups(d, m, gs) && GroupsBytes(d, gs) == Some(b)
    ensures DecodeNoinit(d, b, m) ==
            if AllComplete(d, gs) && AllSeen(d, {}) then Some(Assigned(m, gs)) else None
  {
    GroupsArrive(d, Start(m), gs, b);
  }
}
