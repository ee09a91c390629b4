/** A repeated scalar may arrive packed, one by one, or in any mixture: the array read is the same. */
module PackedArrays {
  import opened Bits
  import opened Wire
  import opened Pb
  import opened EncodeSpec
  import opened DecodeSpec
  import opened ScalarLaws
  import opened RoundTrip

  /** One occurrence of the field on the wire. */
  datatype Chunk = Packed(items: seq<Value>) | Single(item: Value)

  function ItemsIn(c: Chunk): seq<Value>
  {
    match c
    case Packed(items) => items
    case Single(item) => [item]
  }

  function AllItems(cs: seq<Chunk>): seq<Value>
  {
    if cs == [] then [] else ItemsIn(cs[0]) + AllItems(cs[1..])
  }

  function ChunkBytes(f: Field, c: Chunk): Option<seq<Byte>>
  {
    match c
    case Packed(items) =>
      (match EncodeAll(f, items)
       case Some(b) => Some(TagBytes(WT_STRING, f.tag) + WithLength(b))
       case None => None)
    case Single(item) => EncodeTagged(f, item)
  }

  function ChunksBytes(f: Field, cs: seq<Chunk>): Option<seq<Byte>>
  {
    if cs == [] then Some([]) else Cat(ChunkBytes(f, cs[0]), ChunksBytes(f, cs[1..]))
  }

  ghost predicate ValidChunk(f: Field, c: Chunk)
  {
    && (forall k :: 0 <= k < |ItemsIn(c)| ==> Typed(f, ItemsIn(c)[k]))
    && (c.Packed? ==> Short(EncodeAll(f, c.items)))
  }

  /** Field i is a static repeated scalar with a _count member. */
  ghost predicate CountedScalar(d: seq<Field>, i: nat)
  {
    i < |d| && WellFormed(d) && d[i].htype.Repeated? && !FixedCount(d[i]) && Packable(d[i].ltype)
  }

  /** The array is there and within its bounds. */
  ghost predicate HoldsArray(d: seq<Field>, i: nat, st: State)
    requires i < |d|
  {
    InRange(d, st) && st.m[i].Many? && |st.m[i].items| <= d[i].arraySize
  }

  /** The state with more items in array i. */
  function Appended(d: seq<Field>, i: nat, st: State, more: seq<Value>): (st': State)
    requires InRange(d, st) && i < |d|
    ensures InRange(d, st')
  {
    st.(m := st.m[i := Many(ItemsOf(st.m[i]) + more)], pos := i)
  }

  predicate Fits(d: seq<Field>, i: nat, st: State, more: seq<Value>)
    requires InRange(d, st) && i < |d|
  {
    |ItemsOf(st.m[i])| + |more| <= d[i].arraySize
  }

  lemma PackedAppends(d: seq<Field>, i: nat, st: State, items: seq<Value>, all: seq<Byte>, s: seq<Byte>, t: seq<Byte>)
    requires CountedScalar(d, i) && HoldsArray(d, i, st) && EncodeAll(d[i], items) == Some(all) && |all| < U32
    requires s == WithLength(all) + t && forall k :: 0 <= k < |items| ==> Typed(d[i], items[k])
    ensures DecodeField(d, st, i, WT_STRING, s) ==
            if Fits(d, i, st, items) then Continue(Appended(d, i, st, items), t) else Fail
  {
    assert WellFormedField(d[i]);
    var prior := st.m[i].items;
    BlockRestores(all, s, t);
    PackedRestores(d[i], items, all, Array(prior, |prior|));
    StoreArray(d, st.m, i, Many(prior + items));
  }

  lemma SingleAppends(d: seq<Field>, i: nat, st: State, item: Value, p: seq<Byte>, t: seq<Byte>)
    requires CountedScalar(d, i) && HoldsArray(d, i, st) && EncodeValue(d[i], item) == Some(p) && Typed(d[i], item)
    ensures DecodeField(d, st, i, WireTypeOf(d[i].ltype), p + t) ==
            if Fits(d, i, st, [item]) then Continue(Appended(d, i, st, [item]), t) else Fail
  {
    assert WellFormedField(d[i]);
    ScalarRestores(d[i], item, p, t);
    var prior := st.m[i].items;
    assert DecodeValue(d[i], p + t, DefaultValue(d[i])) == Ok(item, t);
    assert Put(prior, |prior|, item) == prior + [item];
    StoreArray(d, st.m, i, Many(prior + [item]));
  }

  /** A counted array needs no bookkeeping on entry. */
  lemma EntersCounted(d: seq<Field>, i: nat, st: State, wireType: nat, s: seq<Byte>, p: seq<Byte>)
    requires CountedScalar(d, i) && InRange(d, st) && wireType < 8 && s == TagBytes(wireType, d[i].tag) + p
    ensures Loop(d, st, s) == AfterField(d, DecodeField(d, st, i, wireType, p))
  {
    LoopEnters(d, st, i, wireType, s, p);
    assert EnterFixed(d, st, i) == Some(st) && MarkSeen(d, st, i) == st;
  }

  /** Reading one chunk appends its items if they fit. */
  lemma ChunkAppends(d: seq<Field>, i: nat, st: State, c: Chunk, b: seq<Byte>, t: seq<Byte>)
    requires CountedScalar(d, i) && HoldsArray(d, i, st) && ValidChunk(d[i], c) && ChunkBytes(d[i], c) == Some(b)
    ensures Loop(d, st, b + t) ==
            if Fits(d, i, st, ItemsIn(c)) then Loop(d, Appended(d, i, st, ItemsIn(c)), t) else LoopFail
  {
    if c.Packed? {
      PackedChunk(d, i, st, c.items, b, t);
    } else {
      assert Typed(d[i], ItemsIn(c)[0]);
      SingleChunk(d, i, st, c.item, b, t);
    }
  }

  lemma PackedChunk(d: seq<Field>, i: nat, st: State, items: seq<Value>, b: seq<Byte>, t: seq<Byte>)
    requires CountedScalar(d, i) && HoldsArray(d, i, st) && ValidChunk(d[i], Packed(items))
    requires ChunkBytes(d[i], Packed(items)) == Some(b)
    ensures Loop(d, st, b + t) ==
            if Fits(d, i, st, items) then Loop(d, Appended(d, i, st, items), t) else LoopFail
  {
    var all, s := PackedParts(d[i], items, b, t);
    PackedAppends(d, i, st, items, all, s, t);
    EntersCounted(d, i, st, WT_STRING, b + t, s);
  }

  lemma PackedParts(f: Field, items: seq<Value>, b: seq<Byte>, t: seq<Byte>) returns (all: seq<Byte>, s: seq<Byte>)
    requires ValidChunk(f, Packed(items)) && ChunkBytes(f, Packed(items)) == Some(b)
    ensures EncodeAll(f, items) == Some(all) && |all| < U32 && forall k :: 0 <= k < |items| ==> Typed(f, items[k])
    ensures s == WithLength(all) + t && b + t == TagBytes(WT_STRING, f.tag) + s
  {
    assert ItemsIn(Packed(items)) == items;
    all := EncodeAll(f, items).value;
    s := WithLength(all) + t;
    assert b + t == TagBytes(WT_STRING, f.tag) + s;
  }

  lemma SingleChunk(d: seq<Field>, i: nat, st: State, item: Value, b: seq<Byte>, t: seq<Byte>)
    requires CountedScalar(d, i) && HoldsArray(d, i, st) && Typed(d[i], item) && EncodeTagged(d[i], item) == Some(b)
    ensures Loop(d, st, b + t) ==
            if Fits(d, i, st, [item]) then Loop(d, Appended(d, i, st, [item]), t) else LoopFail
  {
    var p := EncodeValue(d[i], item).value;
    SingleAppends(d, i, st, item, p, t);
    assert b + t == TagBytes(WireTypeOf(d[i].ltype), d[i].tag) + (p + t);
    EntersCounted(d, i, st, WireTypeOf(d[i].ltype), b + t, p + t);
  }

  /** Any split of a sequence of elements into packed blocks and single elements decodes to that sequence
      appended to the array; it fails exactly when the total exceeds array_size. */
  lemma {:induction false} ChunksAppend(d: seq<Field>, i: nat, st: State, cs: seq<Chunk>, b: seq<Byte>, t: seq<Byte>)
    requires CountedScalar(d, i) && HoldsArray(d, i, st) && ChunksBytes(d[i], cs) == Some(b)
    requires forall k :: 0 <= k < |cs| ==> ValidChunk(d[i], cs[k])
    ensures Loop(d, st, b + t) ==
            if cs == [] then Loop(d, st, t)
            else if Fits(d, i, st, AllItems(cs)) then Loop(d, Appended(d, i, st, AllItems(cs)), t)
            else LoopFail
    decreases |cs|
  {
    if cs == [] {
      assert b + t == t;
    } else {
      var first, rest := ChunkBytes(d[i], cs[0]).value, ChunksBytes(d[i], cs[1..]).value;
      var head, tail := ItemsIn(cs[0]), AllItems(cs[1..]);
      var s := Regroup(first, rest, t);
      ChunkAppends(d, i, st, cs[0], first, s);
      if Fits(d, i, st, head) {
        ChunksAppend(d, i, Appended(d, i, st, head), cs[1..], rest, t);
        AppendedTwice(d, i, st, head, tail);
      }
    }
  }

  lemma AppendedTwice(d: seq<Field>, i: nat, st: State, head: seq<Value>, tail: seq<Value>)
    requires i < |d| && HoldsArray(d, i, st)
    ensures Appended(d, i, Appended(d, i, st, head), tail) == Appended(d, i, st, head + tail)
    ensures Fits(d, i, Appended(d, i, st, head), tail) <==> Fits(d, i, st, head + tail)
    ensures tail == [] ==> Appended(d, i, st, head + tail) == Appended(d, i, st, head)
  {
    assert st.m[i].items + head + tail == st.m[i].items + (head + tail);
    assert tail == [] ==> head + tail == head;
  }

  lemma EndsWith(d: seq<Field>, m: seq<Slot>, b: seq<Byte>, st: State)
    requires |m| == |d| && InRange(d, st) && Loop(d, Start(m), b) == Loop(d, st, [])
    requires st.fixedField == None && st.seen == {}
    ensures DecodeNoinit(d, b, m) == if AllSeen(d, {}) then Some(st.m) else None
  {
    assert Loop(d, st, []) == Done(st, [], false);
  }

  lemma AppendNothing(m: seq<Slot>, i: nat, none: seq<Value>)
    requires i < |m| && m[i].Many? && none == []
    ensures m[i := Many(m[i].items + none)] == m
  {
    assert m[i].items + none == m[i].items;
  }

  lemma SplitResult(d: seq<Field>, i: nat, m: seq<Slot>, cs: seq<Chunk>, b: seq<Byte>)
    requires CountedScalar(d, i) && |m| == |d| && HoldsArray(d, i, Start(m)) && ChunksBytes(d[i], cs) == Some(b)
    requires forall k :: 0 <= k < |cs| ==> ValidChunk(d[i], cs[k])
    ensures DecodeNoinit(d, b, m) ==
            if Fits(d, i, Start(m), AllItems(cs)) && AllSeen(d, {})
            then Some(m[i := Many(m[i].items + AllItems(cs))]) else None
  {
    var st, all := Start(m), AllItems(cs);
    ChunksAppend(d, i, st, cs, b, []);
    assert b + [] == b;
    if cs == [] {
      AppendNothing(m, i, all);
      EndsWith(d, m, b, st);
    } else if Fits(d, i, st, all) {
      EndsWith(d, m, b, Appended(d, i, st, all));
    }
  }

  /** In particular two splits of the same elements are indistinguishable to the decoder. */
  lemma SplitsAgree(d: seq<Field>, i: nat, m: seq<Slot>, cs: seq<Chunk>, cs': seq<Chunk>, b: seq<Byte>, b': seq<Byte>)
    requires CountedScalar(d, i) && |m| == |d| && m[i].Many? && |m[i].items| <= d[i].arraySize
    requires forall k :: 0 <= k < |cs| ==> ValidChunk(d[i], cs[k])
    requires forall k :: 0 <= k < |cs'| ==> ValidChunk(d[i], cs'[k])
    requires ChunksBytes(d[i], cs) == Some(b) && ChunksBytes(d[i], cs') == Some(b') && AllItems(cs) == AllItems(cs')
    ensures DecodeNoinit(d, b, m) == DecodeNoinit(d, b', m)
  {
    SplitResult(d, i, m, cs, b);
    SplitResult(d, i, m, cs', b');
  }
}
