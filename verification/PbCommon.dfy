/** pb_common.c: the iterator over the fields of a message struct. */
module PbCommon {
  import opened Bits
  import opened Pb
  import opened IterSpec

  /** Address of the decoder's local fixed_count_size, which is no address inside any struct. */
  const LOCAL_COUNTER: int := -1

  /** pb_field_iter_t */
  class FieldIter {
    const start: seq<Field>
    const destStruct: nat
    var pos: nat
    var pData: int
    var pSize: int
    var requiredFieldIndex: nat

    /** The pointers are where the table says. Only a fixed-count array may have had pSize redirected. */
    ghost predicate Valid()
      reads this
    {
      if start == [] then pos == 0 && requiredFieldIndex == 0
      else
        && pos < |start|
        && pData == DataAt(start, destStruct, pos)
        && (pSize == SizeAt(start, destStruct, pos) || (pSize == LOCAL_COUNTER && FixedCount(start[pos])))
        && requiredFieldIndex == RequiredBefore(start, pos)
    }

    /** pSize has not been redirected. */
    ghost predicate InPlace()
      reads this
      requires Valid() && start != []
    {
      pSize == SizeAt(start, destStruct, pos)
    }

    constructor Begin(fields: seq<Field>, dest: nat)
      ensures Valid() && start == fields && destStruct == dest && pos == 0
      ensures start != [] ==> InPlace()
    {
      start := fields;
      destStruct := dest;
      pos := 0;
      pData := dest;
      pSize := dest;
      requiredFieldIndex := 0;
      new;
      var _ := Reset();
    }

    /** pb_field_iter_begin: false for a table that is just the terminator. */
    method Reset() returns (nonEmpty: bool)
      modifies this
      ensures Valid() && pos == 0 && nonEmpty == (start != [])
      ensures start != [] ==> InPlace()
    {
      pos := 0;
      requiredFieldIndex := 0;
      pData := destStruct + if start == [] then 0 else start[0].dataOffset;
      pSize := pData + if start == [] then 0 else start[0].sizeOffset;
      nonEmpty := start != [];
    }

    /** pb_field_iter_next: false after the last field, when it is back at the first. */
    method Next() returns (more: bool)
      requires Valid()
      modifies this
      ensures Valid() && more == (old(pos) + 1 < |start|)
      ensures pos == if more then old(pos) + 1 else 0
      ensures start != [] ==> InPlace()
    {
      if start == [] {
        return false;
      }
      var prev := start[pos];
      pos := pos + 1;
      if pos == |start| {
        var _ := Reset();
        return false;
      }
      if prev.htype.Oneof? && start[pos].htype.Oneof? && start[pos].dataOffset == PB_SIZE_MAX {
        return true;
      }
      var prevSize := prev.dataSize;
      if prev.atype.Static? && prev.htype.Repeated? {
        prevSize := prevSize * prev.arraySize;
      } else if prev.atype.Pointer? {
        prevSize := SIZEOF_POINTER;
      }
      if prev.htype.Required? {
        requiredFieldIndex := requiredFieldIndex + 1;
      }
      pData := pData + prevSize + start[pos].dataOffset;
      pSize := pData + start[pos].sizeOffset;
      more := true;
    }

    /** pb_field_iter_find: at most one lap; on failure the iterator is back where it was. */
    method FindTag(tag: nat) returns (found: bool)
      requires Valid()
      modifies this
      ensures Valid()
      ensures start == [] ==> found == (tag == 0)
      ensures start != [] ==>
                found == Find(start, old(pos), tag).Some? &&
                pos == if found then Find(start, old(pos), tag).value else old(pos)
      ensures start != [] && (!found || pos != old(pos)) ==> InPlace()
      ensures pos == old(pos) ==> pSize == old(pSize) || start == [] || InPlace()
    {
      if start == [] {
        // the terminator has tag 0 and is not an extension
        if tag == 0 {
          return true;
        }
        var _ := Next();
        return false;
      }
      var begin := pos;
      ghost var n, left := |start|, |start|;
      while true
        invariant Valid() && 1 <= left <= n
        invariant pos == if begin + n - left < n then begin + n - left else begin - left
        invariant FindFrom(start, begin, tag, n) == FindFrom(start, pos, tag, left)
        invariant left == n ==> pSize == old(pSize)
        invariant left < n ==> InPlace()
        decreases left
      {
        if start[pos].tag == tag && !start[pos].ltype.LExtension? {
          return true;
        }
        var _ := Next();
        left := left - 1;
        if pos == begin {
          break;
        }
      }
      found := false;
    }
  }
}
