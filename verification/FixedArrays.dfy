/** A repeated scalar of fixed count may arrive in any mixture of packed blocks and single entries too: only the total
    matters, and it has to be exactly the size of the array. */
module FixedArrays {
  import opened Bits
  import opened Wire
  import opened Pb
  import opened EncodeSpec
  import opened DecodeSpec
  import opened ScalarLaws
  import opened RoundTrip
  import opened PackedArrays

  /** Field i is a static repeated scalar of fixed count. */
  ghost predicate FixedScalar(d: seq<Field>, i: nat)
  {
    i < |d| && WellFormed(d) && FixedCount(d[i]) && Packable(d[i].ltype)
  }

  /** The array with its first entries overwritten by `done`. */
  function Overlay(before: seq<Value>, done: seq<Value>): seq<Value>
  {
    if |done| <= |before| then done + before[|done|..] else done
  }

  lemma PutOverlays(before: seq<Value>, done: seq<Value>, v: Value)
    ensures Put(Overlay(before, done), |done|, v) == Overlay(before, done + [v])
  {
  }

  /** A packed block overwrites the next entries, or overflows the array. */
  lemma {:induction false} PackedOverlays(f: Field, items: seq<Value>, b: seq<Byte>, before: seq<Value>,
                                          done: seq<Value>)
    requires Packable(f.ltype) && f.dataSize <= PB_SIZE_MAX
    requires forall k :: 0 <= k < |items| ==> Typed(f, items[k])
    requires EncodeAll(f, items) == Some(b)
    ensures DecodePacked(f, b, Array(Overlay(before, done), |done|)) ==
            if items == [] || |done| + |items| <= f.arraySize
            then Some(Array(Overlay(before, done + items), |done| + |items|)) else None
    decreases |items|
  {
    if items == [] {
      assert done + items == done;
    } else {
      var v := EncodeValue(f, items[0]).value;
      var rest := EncodeAll(f, items[1..]).value;
      var done' := done + [items[0]];
      ScalarRestores(f, items[0], v, rest);
      ScalarNonEmpty(f, items[0], v);
      PutOverlays(before, done, items[0]);
      PackedOverlays(f, items[1..], rest, before, done');
      MovesOver(done, items);
    }
  }

  /** `done` is what has arrived of array i: the fixed-count array met last, or one that may begin now because the
      last one is complete. */
  ghost predicate Receives(d: seq<Field>, i: nat, st: State, before: seq<Value>, done: seq<Value>)
    requires i < |d|
  {
    && InRange(d, st)
    && st.m[i] == Many(Overlay(before, done))
    && |done| <= d[i].arraySize
    && (if st.fixedField == Some(i) then st.fixedSize == |done| else FixedComplete(d, st) && done == [])
  }

  /** The state with `done` received. */
  function Received(d: seq<Field>, i: nat, st: State, before: seq<Value>, done: seq<Value>): (st': State)
    requires InRange(d, st) && i < |d|
    ensures InRange(d, st')
  {
    st.(m := st.m[i := Many(Overlay(before, done))], pos := i, fixedField := Some(i), fixedSize := |done|)
  }

  /** From s the decoder receives the items and leaves t, or it rejects them because they overflow the array. */
  ghost predicate ItemsReceived(
      d: seq<Field>, i: nat, st: State, before: seq<Value>, done: seq<Value>, items: seq<Value>,
      s: seq<Byte>, t: seq<Byte>)
    requires InRange(d, st) && i < |d|
  {
    Loop(d, st, s) ==
    if |done| + |items| <= d[i].arraySize then Loop(d, Received(d, i, st, before, done + items), t) else LoopFail
  }

  lemma EntersFixed(d: seq<Field>, i: nat, st: State, before: seq<Value>, done: seq<Value>)
    requires FixedScalar(d, i) && Receives(d, i, st, before, done)
    ensures var st1 := st.(fixedField := Some(i), fixedSize := |done|);
            EnterFixed(d, st, i) == Some(st1) && MarkSeen(d, st1, i) == st1
  {
  }

  lemma PackedField(d: seq<Field>, i: nat, st: State, before: seq<Value>, done: seq<Value>, items: seq<Value>,
                    all: seq<Byte>, t: seq<Byte>)
    requires FixedScalar(d, i) && Receives(d, i, st, before, done) && st.fixedField == Some(i)
    requires EncodeAll(d[i], items) == Some(all) && |all| < U32
    requires forall k :: 0 <= k < |items| ==> Typed(d[i], items[k])
    ensures DecodeField(d, st, i, WT_STRING, WithLength(all) + t) ==
            if |done| + |items| <= d[i].arraySize then Continue(Received(d, i, st, before, done + items), t) else Fail
  {
    assert WellFormedField(d[i]);
    BlockRestores(all, WithLength(all) + t, t);
    PackedOverlays(d[i], items, all, before, done);
    StoreArray(d, st.m, i, Many(Overlay(before, done + items)));
  }

  lemma SingleField(d: seq<Field>, i: nat, st: State, before: seq<Value>, done: seq<Value>, item: Value, p: seq<Byte>,
                    t: seq<Byte>)
    requires FixedScalar(d, i) && Receives(d, i, st, before, done) && st.fixedField == Some(i)
    requires EncodeValue(d[i], item) == Some(p) && Typed(d[i], item)
    ensures DecodeField(d, st, i, WireTypeOf(d[i].ltype), p + t) ==
            if |done| + 1 <= d[i].arraySize then Continue(Received(d, i, st, before, done + [item]), t) else Fail
  {
    assert WellFormedField(d[i]);
    ScalarRestores(d[i], item, p, t);
    assert DecodeValue(d[i], p + t, DefaultValue(d[i])) == Ok(item, t);
    PutOverlays(before, done, item);
    StoreArray(d, st.m, i, Many(Overlay(before, done + [item])));
  }

  /** Reading one chunk receives its items if they fit. */
  lemma ChunkOverlays(d: seq<Field>, i: nat, st: State, before: seq<Value>, done: seq<Value>, c: Chunk, b: seq<Byte>,
                      t: seq<Byte>)
    requires FixedScalar(d, i) && Receives(d, i, st, before, done)
    requires ValidChunk(d[i], c) && ChunkBytes(d[i], c) == Some(b)
    ensures ItemsReceived(d, i, st, before, done, ItemsIn(c), b + t, t)
  {
    if c.Packed? {
      BlockOverlays(d, i, st, before, done, c.items, b, t);
    } else {
      SingleOverlays(d, i, st, before, done, c.item, b, t);
    }
  }

  lemma BlockOverlays(d: seq<Field>, i: nat, st: State, before: seq<Value>, done: seq<Value>, items: seq<Value>,
                      b: seq<Byte>, t: seq<Byte>)
    requires FixedScalar(d, i) && Receives(d, i, st, before, done) && ValidChunk(d[i], Packed(items))
    requires ChunkBytes(d[i], Packed(items)) == Some(b)
    ensures ItemsReceived(d, i, st, before, done, items, b + t, t)
  {
    var st1 := st.(fixedField := Some(i), fixedSize := |done|);
    var all, p := PackedParts(d[i], items, b, t);
    LoopEnters(d, st, i, WT_STRING, b + t, p);
    EntersFixed(d, i, st, before, done);
    PackedField(d, i, st1, before, done, items, all, t);
  }

  lemma SingleOverlays(d: seq<Field>, i: nat, st: State, before: seq<Value>, done: seq<Value>, item: Value,
                       b: seq<Byte>, t: seq<Byte>)
    requires FixedScalar(d, i) && Receives(d, i, st, before, done) && ValidChunk(d[i], Single(item))
    requires EncodeTagged(d[i], item) == Some(b)
    ensures ItemsReceived(d, i, st, before, done, [item], b + t, t)
  {
    var st1 := st.(fixedField := Some(i), fixedSize := |done|);
    var p := EncodeValue(d[i], item).value;
    assert Typed(d[i], ItemsIn(Single(item))[0]);
    assert b + t == TagBytes(WireTypeOf(d[i].ltype), d[i].tag) + (p + t);
    LoopEnters(d, st, i, WireTypeOf(d[i].ltype), b + t, p + t);
    EntersFixed(d, i, st, before, done);
    SingleField(d, i, st1, before, done, item, p, t);
  }

  /** Any split of a sequence of elements into packed blocks and single elements is received as that sequence, and it
      fails exactly when the total exceeds array_size. */
  lemma {:induction false} ChunksOverlay(
      d: seq<Field>, i: nat, st: State, before: seq<Value>, done: seq<Value>, cs: seq<Chunk>,
      b: seq<Byte>, t: seq<Byte>)
    requires FixedScalar(d, i) && Receives(d, i, st, before, done) && cs != [] && ChunksBytes(d[i], cs) == Some(b)
    requires forall k :: 0 <= k < |cs| ==> ValidChunk(d[i], cs[k])
    ensures ItemsReceived(d, i, st, before, done, AllItems(cs), b + t, t)
    decreases |cs|
  {
    var head, tail := ItemsIn(cs[0]), AllItems(cs[1..]);
    var first, rest, s := FirstChunk(d[i], cs, b, t);
    ChunkOverlays(d, i, st, before, done, cs[0], first, s);
    if cs[1..] == [] {
      NothingFollows(head, tail, rest, t);
    } else {
      if |done| + |head| <= d[i].arraySize {
        var st' := ReceivedReceives(d, i, st, before, done + head);
        ChunksOverlay(d, i, st', before, done + head, cs[1..], rest, t);
      }
      ReceivedTwice(d, i, st, before, done, head, tail, b + t, s, t);
    }
  }

  lemma ReceivedReceives(d: seq<Field>, i: nat, st: State, before: seq<Value>, done: seq<Value>) returns (st': State)
    requires i < |d| && InRange(d, st) && |done| <= d[i].arraySize
    ensures st' == Received(d, i, st, before, done) && Receives(d, i, st', before, done)
  {
    st' := Received(d, i, st, before, done);
  }

  lemma FirstChunk(f: Field, cs: seq<Chunk>, b: seq<Byte>, t: seq<Byte>)
      returns (first: seq<Byte>, rest: seq<Byte>, s: seq<Byte>)
    requires cs != [] && ChunksBytes(f, cs) == Some(b)
    ensures ChunkBytes(f, cs[0]) == Some(first) && ChunksBytes(f, cs[1..]) == Some(rest)
    ensures s == rest + t && b + t == first + s
    ensures cs[1..] == [] ==> rest == [] && AllItems(cs[1..]) == []
  {
    first, rest := ChunkBytes(f, cs[0]).value, ChunksBytes(f, cs[1..]).value;
    s := Regroup(first, rest, t);
  }

  lemma NothingFollows(head: seq<Value>, tail: seq<Value>, rest: seq<Byte>, t: seq<Byte>)
    requires tail == [] && rest == []
    ensures head + tail == head && rest + t == t
  {
  }

  lemma ReceivedTwice(d: seq<Field>, i: nat, st: State, before: seq<Value>, done: seq<Value>,
                      head: seq<Value>, tail: seq<Value>, s: seq<Byte>, s': seq<Byte>, t: seq<Byte>)
    requires i < |d| && InRange(d, st) && ItemsReceived(d, i, st, before, done, head, s, s')
    requires |done| + |head| <= d[i].arraySize ==>
               ItemsReceived(d, i, Received(d, i, st, before, done + head), before, done + head, tail, s', t)
    ensures ItemsReceived(d, i, st, before, done, head + tail, s, t)
  {
    assert done + (head + tail) == done + head + tail;
    assert Received(d, i, Received(d, i, st, before, done + head), before, done + head + tail) ==
           Received(d, i, st, before, done + (head + tail));
  }

  lemma EndsFixed(d: seq<Field>, m: seq<Slot>, b: seq<Byte>, st: State)
    requires |m| == |d| && InRange(d, st) && Loop(d, Start(m), b) == Loop(d, st, []) && st.seen == {}
    ensures DecodeNoinit(d, b, m) == if FixedComplete(d, st) && AllSeen(d, {}) then Some(st.m) else None
  {
    assert Loop(d, st, []) == Done(st, [], false);
  }

  /** A fixed-count array decodes exactly when the total is its size, whatever the chunks, and is overwritten by
      them. */
  lemma FixedSplitResult(d: seq<Field>, i: nat, m: seq<Slot>, cs: seq<Chunk>, b: seq<Byte>)
    requires FixedScalar(d, i) && |m| == |d| && m[i].Many? && |m[i].items| <= d[i].arraySize
    requires cs != [] && ChunksBytes(d[i], cs) == Some(b) && forall k :: 0 <= k < |cs| ==> ValidChunk(d[i], cs[k])
    ensures DecodeNoinit(d, b, m) ==
            if |AllItems(cs)| == d[i].arraySize && AllSeen(d, {}) then Some(m[i := Many(AllItems(cs))]) else None
  {
    var before, all := m[i].items, AllItems(cs);
    assert Overlay(before, []) == before;
    assert [] + all == all && b + [] == b;
    ChunksOverlay(d, i, Start(m), before, [], cs, b, []);
    if |all| <= d[i].arraySize {
      EndsFixed(d, m, b, Received(d, i, Start(m), before, all));
      ReceivedAll(d, i, m, before, all);
    }
  }

  lemma ReceivedAll(d: seq<Field>, i: nat, m: seq<Slot>, before: seq<Value>, all: seq<Value>)
    requires i < |d| == |m| && |before| <= d[i].arraySize
    ensures var st := Received(d, i, Start(m), before, all);
            && (FixedComplete(d, st) <==> |all| == d[i].arraySize)
            && (|all| == d[i].arraySize ==> st.m == m[i := Many(all)])
  {
    if |all| == |before| {
      assert Overlay(before, all) == all;
    }
  }
}
