/** Reading an encoded message with a table that lacks some of its fields: each missing field is skipped whole, so the
    wire types the encoder writes are the ones the decoder skips by. */
module PartialReader {
  import opened Bits
  import opened Wire
  import opened Pb
  import opened EncodeSpec
  import opened IterSpec
  import opened DecodeSpec
  import opened ScalarLaws
  import opened RoundTrip
  import opened WireValues
  import opened Lookup

  // ---------------------------------------------------------------- one value

  /** A submessage that is written is below 2^32 bytes; every other value of its C type is. */
  ghost predicate SkippableValue(f: Field, v: Value)
  {
    v.Msg? && f.ptr.SubMsg? && |v.slots| == |f.ptr.fields| ==> Short(EncodeFrom(f.ptr.fields, v.slots, 0))
  }

  lemma {:induction false} VarintIsValue(n: nat)
    ensures WireValue(WT_VARINT, Varint(n))
  {
    if n <= 0x7F {
    } else {
      VarintIsValue(n / 128);
      var b := Varint(n);
      assert b[1..] == Varint(n / 128);
      forall k | 0 <= k < |b| - 1 ensures b[k] >= 128 {
        if k > 0 {
          assert b[k] == b[1..][k - 1];
        }
      }
    }
  }

  /** A block behind its length is skipped exactly when it is below 2^32 bytes. */
  lemma BlockSkipped(x: seq<Byte>, t: seq<Byte>)
    requires |x| < POW_63
    ensures SkipField(WithLength(x) + t, WT_STRING) == if |x| < U32 then Ok((), t) else Err
  {
    assert WithLength(x) + t == Varint(|x|) + (x + t);
    LengthRestores(|x|, WithLength(x) + t, x + t);
    BytesSkipped(x, t);
  }

  lemma ScalarSkipped(f: Field, v: Value, b: seq<Byte>, t: seq<Byte>)
    requires Packable(f.ltype) && EncodeValue(f, v) == Some(b)
    ensures SkipField(b + t, WireTypeOf(f.ltype)) == Ok((), t)
  {
    match f.ltype
    case LFixed32 | LFixed64 => ValueSkipped(WireTypeOf(f.ltype), b, t);
    case LBool => VarintIsValue(if v.n != 0 then 1 else 0); ValueSkipped(WT_VARINT, b, t);
    case LSVarint => VarintIsValue(ZigZag(v.n)); ValueSkipped(WT_VARINT, b, t);
    case LVarint | LUVarint => VarintIsValue(ToU64(v.n)); ValueSkipped(WT_VARINT, b, t);
  }

  lemma BlobSkipped(f: Field, v: Value, b: seq<Byte>, t: seq<Byte>)
    requires !Packable(f.ltype) && v.Blob? && Typed(f, v) && f.dataSize <= PB_SIZE_MAX && EncodeValue(f, v) == Some(b)
    ensures SkipField(b + t, WireTypeOf(f.ltype)) == Ok((), t)
  {
    var x := if f.ltype.LString? then CString(v.bytes[..Min(|v.bytes|, f.dataSize)]) else v.bytes;
    assert b == WithLength(x);
    BlockSkipped(x, t);
  }

  /** What the encoder writes for a value is one value of the wire type in its tag, as a reader that does not know the
      field takes it. */
  lemma ValueIsSkipped(f: Field, v: Value, b: seq<Byte>, t: seq<Byte>)
    requires WellFormedField(f) && Typed(f, v) && EncodeValue(f, v) == Some(b) && |b| < POW_63
    ensures SkipField(b + t, WireTypeOf(f.ltype)) == if SkippableValue(f, v) then Ok((), t) else Err
  {
    if f.ltype.LSubmessage? {
      BlockSkipped(EncodeFrom(f.ptr.fields, v.slots, 0).value, t);
    } else if Packable(f.ltype) {
      ScalarSkipped(f, v, b, t);
    } else {
      BlobSkipped(f, v, b, t);
    }
  }

  /** A tagged value: the tag is that of the field, and skipping by its wire type takes exactly the value. */
  lemma TaggedIsSkipped(f: Field, v: Value, b: seq<Byte>, t: seq<Byte>)
    requires WellFormedField(f) && Typed(f, v) && EncodeTagged(f, v) == Some(b) && |b| < POW_63
    ensures var r := DecodeTag(b + t);
            && r.Tag? && r.tag == f.tag
            && SkipField(r.rest, r.wireType) == if SkippableValue(f, v) then Ok((), t) else Err
  {
    var p := EncodeValue(f, v).value;
    assert b + t == TagBytes(WireTypeOf(f.ltype), f.tag) + (p + t);
    TagRestores(WireTypeOf(f.ltype), f.tag, b + t, p + t);
    ValueIsSkipped(f, v, p, t);
  }

  // ---------------------------------------------------------------- one field

  /** No field of the reader's table has the tag. */
  ghost predicate Undeclared(d: seq<Field>, tag: nat)
  {
    forall i :: 0 <= i < |d| ==> d[i].tag != tag
  }

  /** The loop on an undeclared tag goes on where the skipping stops. */
  lemma LoopSkips(d: seq<Field>, st: State, s: seq<Byte>)
    requires InRange(d, st) && DecodeTag(s).Tag? && DecodeTag(s).tag != 0 && Undeclared(d, DecodeTag(s).tag)
    ensures var skipped := SkipField(DecodeTag(s).rest, DecodeTag(s).wireType);
            Loop(d, st, s) == if skipped.Ok? then Loop(d, st, skipped.rest) else LoopFail
  {
    if d != [] {
      FindFromMisses(d, st.pos, DecodeTag(s).tag, |d|);
    }
  }

  lemma TaggedPasses(d: seq<Field>, st: State, f: Field, v: Value, b: seq<Byte>, t: seq<Byte>)
    requires InRange(d, st) && Undeclared(d, f.tag) && WellFormedField(f) && Typed(f, v)
    requires EncodeTagged(f, v) == Some(b) && |b| < POW_63
    ensures Loop(d, st, b + t) == if SkippableValue(f, v) then Loop(d, st, t) else LoopFail
  {
    TaggedIsSkipped(f, v, b, t);
    LoopSkips(d, st, b + t);
  }

  ghost predicate SkippableFrom(f: Field, items: seq<Value>, k: nat)
  {
    forall j :: k <= j < |items| ==> SkippableValue(f, items[j])
  }

  lemma {:induction false} EachPasses(
      d: seq<Field>, st: State, f: Field, items: seq<Value>, k: nat, b: seq<Byte>, t: seq<Byte>)
    requires InRange(d, st) && Undeclared(d, f.tag) && WellFormedField(f) && k <= |items|
    requires (forall j :: 0 <= j < |items| ==> Typed(f, items[j])) && EncodeEach(f, items[k..]) == Some(b)
    requires |b| < POW_63
    ensures Loop(d, st, b + t) == if SkippableFrom(f, items, k) then Loop(d, st, t) else LoopFail
    decreases |items| - k
  {
    if k == |items| {
      assert b + t == t;
    } else {
      var first, rest := EachSplits(f, items, k, b);
      var s := Regroup(first, rest, t);
      TaggedPasses(d, st, f, items[k], first, s);
      EachPasses(d, st, f, items, k + 1, rest, t);
    }
  }

  lemma PackedPasses(d: seq<Field>, st: State, f: Field, items: seq<Value>, b: seq<Byte>, t: seq<Byte>)
    requires InRange(d, st) && Undeclared(d, f.tag) && WellFormedField(f) && Packable(f.ltype) && items != []
    requires EncodeArray(f, items) == Some(b) && |b| < POW_63
    ensures Loop(d, st, b + t) == if Short(EncodeAll(f, items)) then Loop(d, st, t) else LoopFail
  {
    var all := EncodeAll(f, items).value;
    assert b + t == TagBytes(WT_STRING, f.tag) + (WithLength(all) + t);
    TagRestores(WT_STRING, f.tag, b + t, WithLength(all) + t);
    BlockSkipped(all, t);
    LoopSkips(d, st, b + t);
  }

  /** Everything the encoder writes for the field can be skipped: packed arrays and submessages are below 2^32 bytes. */
  ghost predicate SkippableSlot(f: Field, s: Slot)
  {
    match s
    case Plain(v) => Dropped(f, s) || SkippableValue(f, v)
    case Opt(has, v) => has ==> SkippableValue(f, v)
    case Many(items) => if Packable(f.ltype) then Short(EncodeAll(f, items)) else SkippableFrom(f, items, 0)
    case Chosen(v) => SkippableValue(f, v)
    case NotChosen => true
  }

  lemma ArrayPasses(d: seq<Field>, st: State, f: Field, items: seq<Value>, b: seq<Byte>, t: seq<Byte>)
    requires InRange(d, st) && Undeclared(d, f.tag) && WellFormedField(f) && items != []
    requires (forall j :: 0 <= j < |items| ==> Typed(f, items[j])) && EncodeArray(f, items) == Some(b) && |b| < POW_63
    ensures Loop(d, st, b + t) == if SkippableSlot(f, Many(items)) then Loop(d, st, t) else LoopFail
  {
    if Packable(f.ltype) {
      PackedPasses(d, st, f, items, b, t);
    } else {
      assert items[0..] == items;
      EachPasses(d, st, f, items, 0, b, t);
    }
  }

  /** A reader that does not know a field passes over everything the encoder wrote for it. */
  lemma FieldPasses(d: seq<Field>, st: State, f: Field, slot: Slot, b: seq<Byte>, t: seq<Byte>)
    requires InRange(d, st) && Undeclared(d, f.tag) && WellFormedField(f) && TypedSlot(f, slot)
    requires EncodeField(f, slot) == Some(b) && |b| < POW_63
    ensures Loop(d, st, b + t) == if SkippableSlot(f, slot) then Loop(d, st, t) else LoopFail
  {
    if slot.Many? && slot.items != [] {
      ArrayPasses(d, st, f, slot.items, b, t);
    } else if Written(slot).Some? && !Dropped(f, slot) {
      TaggedPasses(d, st, f, Written(slot).value, b, t);
    } else {
      assert b + t == t;
    }
  }

  // ---------------------------------------------------------------- the whole message

  /** How many of the first n are marked. */
  function Marked(keep: seq<bool>, n: nat): (r: nat)
    requires n <= |keep|
    ensures r <= n
  {
    if n == 0 then 0 else Marked(keep, n - 1) + if keep[n - 1] then 1 else 0
  }

  /** The entries of s that are marked, among the first n. */
  function Kept<T>(s: seq<T>, keep: seq<bool>, n: nat): (r: seq<T>)
    requires n <= |s| == |keep|
    ensures |r| == Marked(keep, n)
  {
    if n == 0 then [] else Kept(s, keep, n - 1) + if keep[n - 1] then [s[n - 1]] else []
  }

  /** Entry n, if it is kept, comes right after those kept before it. */
  lemma {:induction false} KeptAt<T>(s: seq<T>, keep: seq<bool>, n: nat, all: nat)
    requires n <= all <= |s| == |keep|
    ensures |Kept(s, keep, n)| <= |Kept(s, keep, all)|
    ensures n < all && keep[n] ==>
              |Kept(s, keep, n)| < |Kept(s, keep, all)| && Kept(s, keep, all)[|Kept(s, keep, n)|] == s[n]
    decreases all
  {
    if n == all {
    } else {
      KeptAt(s, keep, n, all - 1);
    }
  }

  /** Where entry j of what is kept comes from. */
  lemma {:induction false} KeptFrom<T, U>(s: seq<T>, u: seq<U>, keep: seq<bool>, n: nat, j: nat) returns (i: nat)
    requires n <= |s| == |u| == |keep| && j < |Kept(s, keep, n)|
    ensures i < n && keep[i] && j < |Kept(u, keep, n)| && Kept(s, keep, n)[j] == s[i] && Kept(u, keep, n)[j] == u[i]
  {
    if j < |Kept(s, keep, n - 1)| {
      i := KeptFrom(s, u, keep, n - 1, j);
    } else {
      i := n - 1;
    }
  }

  lemma DropsTag(d: seq<Field>, keep: seq<bool>, n: nat, i: nat)
    requires WellFormed(d) && n <= |d| == |keep| && i < |d| && (i < n ==> !keep[i])
    ensures Undeclared(Kept(d, keep, n), d[i].tag)
  {
    var d' := Kept(d, keep, n);
    forall j | 0 <= j < |d'| ensures d'[j].tag != d[i].tag {
      var k := KeptFrom(d, d, keep, n, j);
      assert k != i && d[if k < i then k else i].tag != d[if k < i then i else k].tag;
    }
  }

  lemma {:induction false} KeptWellFormed(d: seq<Field>, keep: seq<bool>, n: nat)
    requires WellFormed(d) && n <= |d| == |keep|
    ensures WellFormed(Kept(d, keep, n))
  {
    if n == 0 {
    } else {
      KeptWellFormed(d, keep, n - 1);
      DropsTag(d, keep, n - 1, n - 1);
    }
  }

  /** The unions of the table, with the fields left in it, still have at most one chosen member each. */
  ghost predicate UnionsApart(d: seq<Field>, m: seq<Slot>)
    requires |m| == |d|
  {
    forall i, j :: 0 <= i < j < |d| && SameUnion(d, i, j) ==> !(m[i].Chosen? && m[j].Chosen?)
  }

  lemma KeptTyped(d: seq<Field>, m: seq<Slot>, keep: seq<bool>)
    requires TypedMsg(d, m) && |keep| == |d|
    requires UnionsApart(Kept(d, keep, |d|), Kept(m, keep, |d|))
    ensures TypedMsg(Kept(d, keep, |d|), Kept(m, keep, |d|))
  {
    var d', m' := Kept(d, keep, |d|), Kept(m, keep, |d|);
    forall j | 0 <= j < |d'| ensures TypedSlot(d'[j], m'[j]) {
      var i := KeptFrom(d, m, keep, |d|, j);
    }
  }

  /** The reader knows the field and can read it, or it can skip it. */
  ghost predicate PassableAt(d: seq<Field>, m: seq<Slot>, keep: seq<bool>, i: nat)
    requires i < |m| == |d| == |keep|
  {
    if keep[i] then ReadableSlot(d[i], m[i]) else SkippableSlot(d[i], m[i])
  }

  ghost predicate Passable(d: seq<Field>, m: seq<Slot>, keep: seq<bool>, i: nat)
    requires |m| == |d| == |keep|
  {
    forall j :: i <= j < |d| ==> PassableAt(d, m, keep, j)
  }

  /** d' and m' are what the reader knows of the table and of the message. */
  ghost predicate PartOf(d: seq<Field>, m: seq<Slot>, keep: seq<bool>, d': seq<Field>, m': seq<Slot>)
  {
    && Encodable(d, m) && |keep| == |d| && d' == Kept(d, keep, |d|) && m' == Kept(m, keep, |d|) && Encodable(d', m')
  }

  /** Field i of the writer, and where it is in the table of the reader. */
  lemma PartIndex(d: seq<Field>, m: seq<Slot>, keep: seq<bool>, d': seq<Field>, m': seq<Slot>, i: nat)
      returns (j: nat)
    requires PartOf(d, m, keep, d', m') && i < |d|
    ensures j == Marked(keep, i) <= |d'| == |m'|
    ensures Marked(keep, i + 1) == (if keep[i] then j + 1 else j) <= |d'|
    ensures keep[i] ==> j < |d'| && d'[j] == d[i] && m'[j] == m[i]
    ensures !keep[i] ==> Undeclared(d', d[i].tag)
  {
    j := Marked(keep, i);
    KeptAt(d, keep, i, |d|);
    KeptAt(m, keep, i, |d|);
    if !keep[i] {
      KeptAt(d, keep, i + 1, |d|);
      DropsTag(d, keep, |d|, i);
    }
  }

  lemma PartStep(d: seq<Field>, m: seq<Slot>, keep: seq<bool>, d': seq<Field>, m': seq<Slot>, i: nat, st: State,
                 first: seq<Byte>, t: seq<Byte>) returns (st': State)
    requires PartOf(d, m, keep, d', m') && i < |d| && Marked(keep, i) <= |d'| && At(d', m', Marked(keep, i), st)
    requires EncodeField(d[i], m[i]) == Some(first) && |first| < POW_63
    ensures Marked(keep, i + 1) <= |d'| && InRange(d', st')
    ensures if PassableAt(d, m, keep, i)
            then At(d', m', Marked(keep, i + 1), st') && Loop(d', st, first + t) == Loop(d', st', t)
            else Loop(d', st, first + t) == LoopFail
  {
    var j := PartIndex(d, m, keep, d', m', i);
    assert WellFormedField(d[i]) && TypedSlot(d[i], m[i]);
    if keep[i] {
      st' := FieldRestores(d', m', j, st, first, t);
    } else {
      st' := st;
      FieldPasses(d', st, d[i], m[i], first, t);
    }
  }

  /** The reader has its fields among the first i, and the rest of its defaults. */
  ghost predicate PartAt(d: seq<Field>, m: seq<Slot>, keep: seq<bool>, d': seq<Field>, m': seq<Slot>, i: nat, st: State)
  {
    && PartOf(d, m, keep, d', m') && i <= |d| && Marked(keep, i) <= |d'| && At(d', m', Marked(keep, i), st)
  }

  lemma PassableSplits(d: seq<Field>, m: seq<Slot>, keep: seq<bool>, i: nat)
    requires i < |m| == |d| == |keep|
    ensures Passable(d, m, keep, i) <==> PassableAt(d, m, keep, i) && Passable(d, m, keep, i + 1)
  {
  }

  /** The loop of the reader from st: it ends in st' with all its fields, or fails. */
  ghost predicate Outcome(d': seq<Field>, m': seq<Slot>, st: State, st': State, b: seq<Byte>, passable: bool)
  {
    && |m'| == |d'| && InRange(d', st) && InRange(d', st')
    && (if passable then At(d', m', |d'|, st') && Loop(d', st, b) == Done(st', [], false)
        else Loop(d', st, b) == LoopFail)
  }

  lemma PartEnds(d: seq<Field>, m: seq<Slot>, keep: seq<bool>, d': seq<Field>, m': seq<Slot>, st: State, b: seq<Byte>)
    requires PartAt(d, m, keep, d', m', |d|, st) && EncodeFrom(d, m, |d|) == Some(b)
    ensures Outcome(d', m', st, st, b, Passable(d, m, keep, |d|))
  {
  }

  /** The loop from st on first + rest is the loop from st1 on rest. */
  ghost predicate GoesOn(d': seq<Field>, st: State, st1: State, b: seq<Byte>, rest: seq<Byte>)
  {
    InRange(d', st) && InRange(d', st1) && Loop(d', st, b) == Loop(d', st1, rest)
  }

  lemma OutcomeBefore(d': seq<Field>, m': seq<Slot>, st: State, st1: State, st': State, b: seq<Byte>,
                      rest: seq<Byte>, passable: bool)
    requires GoesOn(d', st, st1, b, rest) && Outcome(d', m', st1, st', rest, passable)
    ensures Outcome(d', m', st, st', b, passable)
  {
  }

  /** The first field of what is left. */
  lemma PartRound(
      d: seq<Field>, m: seq<Slot>, keep: seq<bool>, d': seq<Field>, m': seq<Slot>, i: nat, st: State, b: seq<Byte>)
      returns (st1: State, rest: seq<Byte>)
    requires PartAt(d, m, keep, d', m', i, st) && i < |d| && EncodeFrom(d, m, i) == Some(b) && |b| < POW_63
    ensures EncodeFrom(d, m, i + 1) == Some(rest) && |rest| < POW_63
    ensures if PassableAt(d, m, keep, i) then PartAt(d, m, keep, d', m', i + 1, st1) && GoesOn(d', st, st1, b, rest)
            else Outcome(d', m', st, st, b, false)
  {
    var first;
    first, rest := FromSplits(d, m, i, b);
    st1 := PartStep(d, m, keep, d', m', i, st, first, rest);
  }

  lemma {:induction false} PartLoop(
      d: seq<Field>, m: seq<Slot>, keep: seq<bool>, d': seq<Field>, m': seq<Slot>, i: nat, st: State, b: seq<Byte>)
      returns (st': State)
    requires PartAt(d, m, keep, d', m', i, st) && EncodeFrom(d, m, i) == Some(b) && |b| < POW_63
    ensures Outcome(d', m', st, st', b, Passable(d, m, keep, i))
    decreases |d| - i
  {
    st' := st;
    if i == |d| {
      PartEnds(d, m, keep, d', m', st, b);
    } else {
      var st1, rest := PartRound(d, m, keep, d', m', i, st, b);
      PassableSplits(d, m, keep, i);
      if PassableAt(d, m, keep, i) {
        st' := PartLoop(d, m, keep, d', m', i + 1, st1, rest);
        OutcomeBefore(d', m', st, st1, st', b, rest, Passable(d, m, keep, i + 1));
      }
    }
  }

  /** What was encoded with one table and decoded with a table that lacks some of its fields, whichever they are, gives
      the members that are left, if those are readable and the others can be skipped; otherwise decoding fails. */
  lemma PartRestores(d: seq<Field>, m: seq<Slot>, keep: seq<bool>, b: seq<Byte>)
    requires Encodable(d, m) && |keep| == |d| && Encode(d, m) == Some(b) && |b| < POW_63
    requires UnionsApart(Kept(d, keep, |d|), Kept(m, keep, |d|))
    ensures var d', m' := Kept(d, keep, |d|), Kept(m, keep, |d|);
            Decode(d', b) == if Passable(d, m, keep, 0) then Some(NormMsg(d', m')) else None
  {
    var d', m' := Kept(d, keep, |d|), Kept(m, keep, |d|);
    KeptTyped(d, m, keep);
    KeptWellFormed(d, keep, |d|);
    var st := Start(DefaultMsg(d'));
    assert At(d', m', 0, st);
    var st' := PartLoop(d, m, keep, d', m', 0, st, b);
    if Passable(d, m, keep, 0) {
      assert st'.m == NormMsg(d', m');
    }
  }
}
