/**
 * `Variant` (src/no_glib/variant.rs): a value in GVariant normal form, held as its type
 * string and its serialised bytes. Containers are built from their children
 * (`array_from_iter_with_type`, `tuple_from_iter`, `from_variant`) and taken apart again
 * (`n_children`, `try_child_value`); variable-size children are delimited by end offsets
 * stored after the data, little-endian, in the narrowest width that fits.
 *
 * The struct also stores the info of its type; every constructor computes it with
 * `type_info`, so here it is not a field but `TypeInfoOf(typ)`, and a constructor whose
 * `type_info` call panics gives None. Every other panic (an index out of range, an
 * arithmetic underflow in a debug build, an `unwrap` on an error) is None as well.
 */
module VariantValue {
  import opened Wrappers
  import opened GvdbUtil
  import opened Utf8
  import opened VariantType
  import opened VariantSubtype
  import opened VariantTypeInfo
  import opened VariantTypeLength

  /** The largest values of the unsigned widths the offset rules compare against. */
  const U8_MAX: nat := 0xff
  const U16_MAX: nat := 0xffff
  const U32_MAX_LEN: nat := 0xffff_ffff
  /** Lengths and offsets are `usize`: below 2^64 on the 64-bit hosts the code targets. */
  const USIZE_LIMIT: nat := 0x1_0000_0000_0000_0000

  datatype Variant = Variant(typ: bytes, data: bytes)

  /** `from_data_with_type`: None where the type's `type_info` panics. */
  function FromDataWithType(data: bytes, typ: bytes): (r: Option<Variant>)
    ensures r.Some? <==> TypeInfoOf(typ).Some?
    ensures r.Some? ==> r.value == Variant(typ, data)
  {
    if TypeInfoOf(typ).Some? then Some(Variant(typ, data)) else None
  }

  // ---------------------------------------------------------------------------------------
  // Offset widths
  // ---------------------------------------------------------------------------------------

  /**
   * `varsize_container_offset_item_size`: the width of the offsets a reader expects in data
   * of length `len`, 0 for no data.
   */
  function OffsetItemSize(len: nat): (r: nat)
    ensures r <= len
    ensures len > 0 ==> IsAlignment(r)
  {
    if len > U32_MAX_LEN then 8
    else if len > U16_MAX then 4
    else if len > U8_MAX then 2
    else if len > 0 then 1
    else 0
  }

  /**
   * `varsize_container_offset_size_for_n`: the width a writer picks for `n` offsets after
   * `dataLen` bytes: the narrowest whose largest value holds the data and the offsets.
   */
  function OffsetSizeForN(dataLen: nat, n: nat): (r: nat)
    ensures IsAlignment(r)
  {
    if dataLen + 8 * n > U32_MAX_LEN then 8
    else if dataLen + 4 * n > U16_MAX then 4
    else if dataLen + 2 * n > U8_MAX then 2
    else 1
  }

  /** The data and the offsets together stay within the range of the width the writer picks. */
  lemma OffsetSizeFits(dataLen: nat, n: nat)
    ensures var s := OffsetSizeForN(dataLen, n);
      s < 8 ==> dataLen + n * s < Pow256(s)
  {
    assert Pow256(1) == 0x100;
    assert Pow256(2) == 0x1_0000;
    assert Pow256(4) == 0x1_0000_0000;
  }

  /**
   * Reader and writer agree on the width: data followed by n >= 1 offsets of the writer's
   * width has the length from which the reader infers that width.
   */
  lemma OffsetSizesAgree(dataLen: nat, n: nat)
    requires n >= 1
    ensures OffsetItemSize(dataLen + n * OffsetSizeForN(dataLen, n)) == OffsetSizeForN(dataLen, n)
  {
  }

  /**
   * `read_unaligned_le`: the little-endian number in the first `size` bytes. None where the
   * code panics: fewer than `size` bytes, or a width other than 1, 2, 4 or 8, whose
   * conversion to a one-byte array fails.
   */
  function ReadUnalignedLe(data: bytes, size: nat): (r: Option<nat>)
    ensures r.Some? <==> size <= |data| && IsAlignment(size)
  {
    if |data| < size then None
    else if size == 8 || size == 4 || size == 2 || size == 1 then Some(FromLe(data[..size]))
    else None
  }

  /** A number written in a width that holds it reads back from the front of any bytes. */
  lemma ReadWritten(x: nat, size: nat, rest: bytes)
    requires IsAlignment(size) && x < Pow256(size)
    ensures ReadUnalignedLe(LeBytes(x, size) + rest, size) == Some(x)
  {
    assert (LeBytes(x, size) + rest)[..size] == LeBytes(x, size);
    FromLeOfLeBytes(x, size);
  }

  /** Reading no bytes panics: there is no width-0 conversion. */
  lemma ReadNothingPanics(data: bytes)
    ensures ReadUnalignedLe(data, 0) == None
  {
  }

  // ---------------------------------------------------------------------------------------
  // `add_offsets_to_varsize_container_data`
  // ---------------------------------------------------------------------------------------

  /** The offsets, each little-endian in `size` bytes and cut to that width, one after another. */
  function OffsetBytes(offsets: seq<nat>, size: nat): (r: bytes)
    ensures |r| == |offsets| * size
  {
    if offsets == [] then []
    else OffsetBytes(offsets[..|offsets| - 1], size) + LeBytes(offsets[|offsets| - 1], size)
  }

  /** One more offset appends its image. */
  lemma OffsetBytesStep(offsets: seq<nat>, k: nat, size: nat)
    requires k < |offsets|
    ensures OffsetBytes(offsets[..k + 1], size) == OffsetBytes(offsets[..k], size) + LeBytes(offsets[k], size)
  {
    assert offsets[..k + 1][..k] == offsets[..k];
  }

  /** The loop of `add_offsets_to_varsize_container_data`: appending offset k keeps the image of the first ones. */
  lemma OffsetsAppended(data: bytes, offsets: seq<nat>, k: nat, size: nat, before: bytes, after: bytes)
    requires k < |offsets| && before == data + OffsetBytes(offsets[..k], size)
    requires after == before + LeBytes(offsets[k], size)
    ensures after == data + OffsetBytes(offsets[..k + 1], size)
  {
    OffsetBytesStep(offsets, k, size);
    AppendTwo(data, OffsetBytes(offsets[..k], size), LeBytes(offsets[k], size), OffsetBytes(offsets[..k + 1], size));
  }

  lemma AppendTwo(a: bytes, x: bytes, y: bytes, z: bytes)
    requires z == x + y
    ensures a + x + y == a + z
  {
  }

  /** The image of the first j offsets is a prefix of the image of them all. */
  lemma {:induction false} OffsetBytesPrefix(offsets: seq<nat>, size: nat, j: nat)
    requires j <= |offsets|
    ensures OffsetBytes(offsets[..j], size) <= OffsetBytes(offsets, size)
    decreases |offsets|
  {
    if j < |offsets| {
      var front := offsets[..|offsets| - 1];
      assert front[..j] == offsets[..j];
      OffsetBytesPrefix(front, size, j);
    } else {
      assert offsets[..j] == offsets;
    }
  }

  /** Offset k sits at bytes k*size .. (k+1)*size. */
  lemma OffsetBytesAt(offsets: seq<nat>, size: nat, k: nat)
    requires k < |offsets|
    ensures k * size + size <= |OffsetBytes(offsets, size)|
    ensures OffsetBytes(offsets, size)[k * size..k * size + size] == LeBytes(offsets[k], size)
  {
    var b := OffsetBytes(offsets, size);
    var a := OffsetBytes(offsets[..k], size);
    var p := OffsetBytes(offsets[..k + 1], size);
    OffsetBytesPrefix(offsets, size, k + 1);
    assert offsets[..k + 1][..k] == offsets[..k];
    assert p == a + LeBytes(offsets[k], size);
    assert |offsets[..k]| == k;
    assert |a| == k * size;
    assert b[|a|..|p|] == p[|a|..];
  }

  /**
   * `add_offsets_to_varsize_container_data`: appends the offsets in the width the writer
   * picks for them, leaving the data before them as it was.
   */
  method AddOffsets(data: bytes, offsets: seq<nat>) returns (r: bytes)
    ensures r == data + OffsetBytes(offsets, OffsetSizeForN(|data|, |offsets|))
    ensures |r| == |data| + |offsets| * OffsetSizeForN(|data|, |offsets|)
  {
    var offsetsSize := OffsetSizeForN(|data|, |offsets|);
    r := data;
    var k := 0;
    while k < |offsets|
      invariant k <= |offsets|
      invariant r == data + OffsetBytes(offsets[..k], offsetsSize)
    {
      var offset := offsets[k];
      ghost var before := r;
      if offsetsSize == 8 {
        r := r + LeBytes(offset, 8);
      } else if offsetsSize == 4 {
        r := r + LeBytes(offset, 4);
      } else if offsetsSize == 2 {
        r := r + LeBytes(offset, 2);
      } else {
        r := r + LeBytes(offset, 1);
      }
      assert r == before + LeBytes(offset, offsetsSize);
      OffsetsAppended(data, offsets, k, offsetsSize, before, r);
      k := k + 1;
    }
    assert offsets[..k] == offsets;
  }

  // ---------------------------------------------------------------------------------------
  // Concatenated child data
  // ---------------------------------------------------------------------------------------

  /** The data of each child, in order. */
  function Datas(children: seq<Variant>): (r: seq<bytes>)
    ensures |r| == |children|
    ensures forall i | 0 <= i < |children| :: r[i] == children[i].data
  {
    seq(|children|, i requires 0 <= i < |children| => children[i].data)
  }

  lemma {:induction false} ConcatSnoc(ds: seq<bytes>, d: bytes)
    ensures Concat(ds + [d]) == Concat(ds) + d
    decreases |ds|
  {
    if ds == [] {
      assert ds + [d] == [d];
      assert Concat([d]) == d + Concat([]);
    } else {
      assert (ds + [d])[1..] == ds[1..] + [d];
      ConcatSnoc(ds[1..], d);
    }
  }

  /** The data of the first j children is a prefix of the data of them all. */
  lemma {:induction false} ConcatPrefix(ds: seq<bytes>, j: nat)
    requires j <= |ds|
    ensures Concat(ds[..j]) <= Concat(ds)
    decreases |ds|
  {
    if j > 0 {
      assert ds[..j][1..] == ds[1..][..j - 1];
      ConcatPrefix(ds[1..], j - 1);
    }
  }

  /** Child k's data sits between the ends of children k - 1 and k. */
  lemma ConcatAt(ds: seq<bytes>, k: nat)
    requires k < |ds|
    ensures |Concat(ds[..k])| + |ds[k]| == |Concat(ds[..k + 1])| <= |Concat(ds)|
    ensures Concat(ds)[|Concat(ds[..k])|..|Concat(ds[..k + 1])|] == ds[k]
  {
    assert ds[..k + 1] == ds[..k] + [ds[k]];
    ConcatSnoc(ds[..k], ds[k]);
    ConcatPrefix(ds, k + 1);
  }

  /** Children all of `size` bytes: child k starts at k * size. */
  lemma {:induction false} ConcatUniform(ds: seq<bytes>, size: nat)
    requires forall i | 0 <= i < |ds| :: |ds[i]| == size
    ensures |Concat(ds)| == |ds| * size
    decreases |ds|
  {
    if ds != [] {
      ConcatUniform(ds[1..], size);
      assert |ds| * size == (|ds| - 1) * size + size;
    }
  }

  /** The end of each child's data within their concatenation. */
  function Ends(ds: seq<bytes>): (r: seq<nat>)
    ensures |r| == |ds|
  {
    if ds == [] then [] else Ends(ds[..|ds| - 1]) + [|Concat(ds)|]
  }

  lemma {:induction false} EndsAt(ds: seq<bytes>, k: nat)
    requires k < |ds|
    ensures Ends(ds)[k] == |Concat(ds[..k + 1])| <= |Concat(ds)|
    decreases |ds|
  {
    ConcatPrefix(ds, k + 1);
    var front := ds[..|ds| - 1];
    if k < |ds| - 1 {
      EndsAt(front, k);
      assert front[..k + 1] == ds[..k + 1];
    } else {
      assert ds[..k + 1] == ds;
    }
  }

  // ---------------------------------------------------------------------------------------
  // `array_from_iter_with_type`
  // ---------------------------------------------------------------------------------------

  /**
   * `array_from_iter_with_type`: the children's data one after another and, for an element
   * type of variable size, the end of each child as an offset. None where the code panics:
   * the element type has no info, a child has another type, or the array type is invalid.
   */
  function ArrayOf(typ: bytes, children: seq<Variant>): (r: Option<Variant>)
    ensures r.Some? ==> r.value.typ == [CLASS_ARRAY] + typ
    ensures r.Some? ==> forall i | 0 <= i < |children| :: children[i].typ == typ
  {
    match TypeInfoOf(typ)
    case None => None
    case Some(info) =>
      if exists i | 0 <= i < |children| :: children[i].typ != typ then None
      else
        match NewArray(typ)
        case None => None
        case Some(arrayType) => FromDataWithType(ArrayData(Datas(children), info.fixedSize == 0), arrayType)
  }

  /** The data of an array of children with data ds, with the children's ends as offsets when `variable`. */
  function ArrayData(ds: seq<bytes>, variable: bool): bytes {
    var offsets := if variable then Ends(ds) else [];
    Concat(ds) + OffsetBytes(offsets, OffsetSizeForN(|Concat(ds)|, |offsets|))
  }

  /** The loop of `array_from_iter_with_type` over the children. */
  method ArrayFromIterWithType(typ: bytes, children: seq<Variant>) returns (r: Option<Variant>)
    ensures r == ArrayOf(typ, children)
  {
    var info := TypeInfoOf(typ);
    if info.None? {
      return None;
    }
    var data: bytes := [];
    var offsets: seq<nat> := [];
    var k := 0;
    while k < |children|
      invariant k <= |children|
      invariant forall i | 0 <= i < k :: children[i].typ == typ
      invariant data == Concat(Datas(children[..k]))
      invariant offsets == if info.value.fixedSize == 0 then Ends(Datas(children[..k])) else []
    {
      if children[k].typ != typ {
        return None;
      }
      DatasStep(children, k);
      data := data + children[k].data;
      if info.value.fixedSize == 0 {
        offsets := offsets + [|data|];
      }
      k := k + 1;
    }
    assert children[..k] == children;
    data := AddOffsets(data, offsets);
    var arrayType := NewArray(typ);
    if arrayType.None? {
      return None;
    }
    r := FromDataWithType(data, arrayType.value);
  }

  /** One more child appends its data to the concatenation, and its end to the ends. */
  lemma DatasStep(children: seq<Variant>, k: nat)
    requires k < |children|
    ensures Concat(Datas(children[..k + 1])) == Concat(Datas(children[..k])) + children[k].data
    ensures Ends(Datas(children[..k + 1])) == Ends(Datas(children[..k])) + [|Concat(Datas(children[..k + 1]))|]
  {
    var ds := Datas(children[..k]);
    assert Datas(children[..k + 1]) == ds + [children[k].data];
    ConcatSnoc(ds, children[k].data);
    assert (ds + [children[k].data])[..k] == ds;
  }

  // ---------------------------------------------------------------------------------------
  // `n_children` and `try_child_value`
  // ---------------------------------------------------------------------------------------

  /** `VariantTy::ANY`, the type a tuple child has when the loop finds no member. */
  const ANY_TYPE: bytes := [CLASS_ANY]

  /**
   * `variable_length_array_offsets_size`: the bytes the offsets of a variable-size array
   * take, found from the last offset, which is where the last child ends; 0 for data that
   * does not fit that pattern. None where the code panics: for empty data the offset width
   * is 0 and reading no bytes fails. With `intended`, empty data has no offsets.
   */
  function OffsetsArraySize(data: bytes, intended: bool): (r: Option<nat>)
    ensures r.Some? ==> r.value <= |data|
    ensures r.Some? && r.value > 0 ==> OffsetItemSize(|data|) > 0 && r.value % OffsetItemSize(|data|) == 0
    ensures r.None? <==> !intended && data == []
  {
    var w := OffsetItemSize(|data|);
    if intended && data == [] then Some(0)
    else
      match ReadUnalignedLe(data[|data| - w..], w)
      case None => None
      case Some(lastEnd) =>
        if lastEnd > |data| then Some(0)
        else if (|data| - lastEnd) % w != 0 then Some(0)
        else Some(|data| - lastEnd)
  }

  /**
   * `n_children`: 0 or 1 for a maybe; for an array, the data over the element size when the
   * element has a fixed size that divides it, otherwise the number of offsets (0 for data
   * that does not fit); the member count for a tuple or variant; 0 otherwise. None where
   * the code panics. With `intended`, an empty variable-size array has no children.
   */
  function Children(v: Variant, intended: bool): (r: Option<nat>)
    ensures r.Some? ==> TypeInfoOf(v.typ).Some? && |v.typ| > 0
    ensures TypeInfoOf(v.typ).Some? && (intended || !IsArray(v.typ)) ==> r.Some?
    ensures r.Some? && IsMaybe(v.typ) ==> r.value <= 1 && (r.value == 1 <==> v.data != [])
    ensures r.Some? && IsArray(v.typ) ==> r.value <= |v.data|
  {
    match TypeInfoOf(v.typ)
    case None => None
    case Some(info) =>
      if IsMaybe(v.typ) then Some(if |v.data| > 0 then 1 else 0)
      else if IsArray(v.typ) then
        var efs := info.elementFixedSize;
        if efs != 0 && |v.data| % efs == 0 then DivAtMost(|v.data|, efs); Some(|v.data| / efs)
        else
          match OffsetsArraySize(v.data, intended)
          case None => None
          case Some(size) =>
            if size == 0 then Some(0)
            else DivAtMost(size, OffsetItemSize(|v.data|)); Some(size / OffsetItemSize(|v.data|))
      else if IsTuple(v.typ) || IsVariant(v.typ) then Some(info.nMembers)
      else Some(0)
  }

  /** A quotient by a positive divisor is at most the dividend. */
  lemma DivAtMost(a: nat, b: nat)
    requires b > 0
    ensures a / b <= a
  {
    var q: nat := a / b;
    var c: nat := b - 1;
    assert b * q + a % b == a && a % b >= 0;
    assert b * q == q + c * q;
    assert c * q >= 0;
  }

  /** `n_children` as written. */
  function NChildren(v: Variant): (r: Option<nat>)
    ensures v.data != [] ==> r == IntendedNChildren(v)
  {
    Children(v, false)
  }

  /** `n_children` as evidently meant. */
  function IntendedNChildren(v: Variant): (r: Option<nat>)
    ensures r.Some? <==> TypeInfoOf(v.typ).Some?
  {
    Children(v, true)
  }

  /** Where the tuple loop stops: the child's first byte, the code's `offset_end`, its type, and whether it found the child. */
  datatype Walked = Walked(offset: nat, offsetEnd: nat, typ: bytes, found: bool)

  /**
   * The size of tuple member `idx` placed at `start`: its fixed size; for the last member
   * the bytes up to the offsets; for another variable-size member its end offset, read from
   * the end of the data backwards, minus `start`. None where the code panics or `get` fails.
   */
  function MemberSize(data: bytes, t: TupleTypeInfo, w: nat, offsetsStart: nat, idx: nat, start: nat,
                      nUnsizedMember: nat): (r: Option<nat>)
    requires idx < |t.memberInfo|
    ensures t.memberInfo[idx].fixedSize != 0 ==> r == Some(t.memberInfo[idx].fixedSize)
    ensures r.Some? && t.memberInfo[idx].fixedSize == 0 && idx == |t.memberInfo| - 1 ==> start + r.value == offsetsStart
    ensures r.Some? && t.memberInfo[idx].fixedSize == 0 && idx < |t.memberInfo| - 1 ==>
      var back := w * (nUnsizedMember + 1);
      w <= back <= |data| && ReadUnalignedLe(data[|data| - back..|data| - back + w], w) == Some(start + r.value)
  {
    var info := t.memberInfo[idx];
    if info.fixedSize != 0 then Some(info.fixedSize)
    else if idx == |t.memberInfo| - 1 then
      if offsetsStart < start then None else Some(offsetsStart - start)
    else
      var back := w * (nUnsizedMember + 1);
      if back > |data| || |data| - back + w > |data| then None
      else
        match ReadUnalignedLe(data[|data| - back..|data| - back + w], w)
        case None => None
        case Some(end) => if end < start then None else Some(end - start)
  }

  /** The body of the tuple loop that measures a member. */
  method MeasureMember(data: bytes, t: TupleTypeInfo, w: nat, offsetsStart: nat, idx: nat, start: nat,
                       nUnsizedMember: nat) returns (r: Option<nat>)
    requires idx < |t.memberInfo|
    ensures r == MemberSize(data, t, w, offsetsStart, idx, start, nUnsizedMember)
  {
    var memberSize := t.memberInfo[idx].fixedSize;
    if memberSize == 0 {
      if idx == |t.memberInfo| - 1 {
        if offsetsStart < start {
          return None;
        }
        memberSize := offsetsStart - start;
      } else {
        var back := w * (nUnsizedMember + 1);
        if back > |data| || |data| - back + w > |data| {
          return None;
        }
        var memberOffsetPos := |data| - back;
        var end := ReadUnalignedLe(data[memberOffsetPos..memberOffsetPos + w], w);
        if end.None? || end.value < start {
          return None;
        }
        memberSize := end.value - start;
      }
    }
    return Some(memberSize);
  }

  /**
   * The loop of the tuple branch from member `idx` on: each member is padded to its
   * alignment and measured, and the loop stops at member `index`. None where the code
   * panics, including a member of alignment 0 (the padding takes a remainder by it).
   */
  function TupleWalk(data: bytes, t: TupleTypeInfo, w: nat, offsetsStart: nat, index: nat,
                     idx: nat, offset: nat, nUnsizedMember: nat, typ: bytes): (r: Option<Walked>)
    requires idx <= |t.memberInfo|
    ensures r.Some? ==> offset <= r.value.offset
    ensures r.Some? && idx <= index < |t.memberInfo| ==> r.value.found
    ensures r.Some? && r.value.found ==>
      && idx <= index < |t.memberInfo| && index < |t.memberTypes|
      && r.value.typ == t.memberTypes[index] && r.value.offset <= r.value.offsetEnd
    decreases |t.memberInfo| - idx
  {
    if idx == |t.memberInfo| then Some(Walked(offset, 0, typ, false))
    else if idx >= |t.memberTypes| then None
    else
      var info := t.memberInfo[idx];
      if info.alignment == 0 then None
      else
        var start := if offset % info.alignment != 0 then offset + (info.alignment - offset % info.alignment) else offset;
        match MemberSize(data, t, w, offsetsStart, idx, start, nUnsizedMember)
        case None => None
        case Some(size) =>
          var seen := if info.fixedSize == 0 then nUnsizedMember + 1 else nUnsizedMember;
          if index == idx then Some(Walked(start, start + size, t.memberTypes[idx], true))
          else TupleWalk(data, t, w, offsetsStart, index, idx + 1, start + size, seen, t.memberTypes[idx])
  }

  /** The tuple branch's `for` loop over the members. */
  method WalkTuple(data: bytes, t: TupleTypeInfo, w: nat, offsetsStart: nat, index: nat) returns (r: Option<Walked>)
    ensures r == TupleWalk(data, t, w, offsetsStart, index, 0, 0, 0, ANY_TYPE)
  {
    var nUnsizedMember: nat := 0;
    var offset: nat := 0;
    var typ := ANY_TYPE;
    var idx := 0;
    while idx < |t.memberInfo|
      invariant idx <= |t.memberInfo|
      invariant TupleWalk(data, t, w, offsetsStart, index, idx, offset, nUnsizedMember, typ)
        == TupleWalk(data, t, w, offsetsStart, index, 0, 0, 0, ANY_TYPE)
      decreases |t.memberInfo| - idx
    {
      if idx >= |t.memberTypes| {
        return None;
      }
      typ := t.memberTypes[idx];
      var alignment := t.memberInfo[idx].alignment;
      if alignment == 0 {
        return None;
      }
      if offset % alignment != 0 {
        offset := offset + (alignment - offset % alignment);
      }
      var memberSize := MeasureMember(data, t, w, offsetsStart, idx, offset, nUnsizedMember);
      if memberSize.None? {
        return None;
      }
      if t.memberInfo[idx].fixedSize == 0 {
        nUnsizedMember := nUnsizedMember + 1;
      }
      if index == idx {
        return Some(Walked(offset, offset + memberSize.value, typ, true));
      }
      offset := offset + memberSize.value;
      idx := idx + 1;
    }
    return Some(Walked(offset, 0, typ, false));
  }

  /**
   * The variant branch's search, from the back of the data, for a zero byte other than the
   * last byte; `index` counts from the back. The result is the position just after it,
   * where the child's type string starts.
   */
  function SeparatorFrom(data: bytes, index: nat): (r: Option<nat>)
    ensures r.Some? ==> 1 <= r.value < |data| && data[r.value - 1] == 0
    decreases |data| - index
  {
    if index >= |data| then None
    else if index > 0 && data[|data| - 1 - index] == 0 then Some(|data| - index)
    else SeparatorFrom(data, index + 1)
  }

  /** The variant branch's `for` loop over the reversed data. */
  method FindSeparator(data: bytes) returns (r: Option<nat>)
    ensures r == SeparatorFrom(data, 0)
  {
    var index := 0;
    while index < |data|
      invariant SeparatorFrom(data, index) == SeparatorFrom(data, 0)
      decreases |data| - index
    {
      if index > 0 && data[|data| - 1 - index] == 0 {
        return Some(|data| - index);
      }
      index := index + 1;
    }
    return None;
  }

  /** The array branch for an element of fixed size: the `size` bytes at `index * size`. */
  function FixedElement(data: bytes, index: nat, size: nat, elem: bytes): (r: Option<Variant>)
    ensures r.Some? <==> index * size + size <= |data| && TypeInfoOf(elem).Some?
    ensures r.Some? ==> r.value.typ == elem && r.value.data == data[index * size..index * size + size]
  {
    var offset := index * size;
    if offset + size > |data| then None
    else FromDataWithType(data[offset..offset + size], elem)
  }

  /**
   * The array branch for an element of variable size: the child ends at its offset and
   * starts at the previous child's offset, or at 0 for the first child.
   */
  function VariableElement(data: bytes, index: nat, elem: bytes, intended: bool): (r: Option<Variant>)
    ensures r.Some? ==> r.value.typ == elem && |r.value.data| <= |data|
    ensures r.Some? && index == 0 ==> r.value.data <= data
  {
    var w := OffsetItemSize(|data|);
    match OffsetsArraySize(data, intended)
    case None => None
    case Some(offsetsSize) =>
      var bucket := |data| - offsetsSize + index * w;
      if bucket + w > |data| then None
      else
        match ReadUnalignedLe(data[bucket..bucket + w], w)
        case None => None
        case Some(end) =>
          var start :=
            if index == 0 then Some(0)
            else if bucket < w then None
            else ReadUnalignedLe(data[bucket - w..bucket], w);
          match start
          case None => None
          case Some(start) =>
            if start <= end <= |data| then FromDataWithType(data[start..end], elem) else None
  }

  /** The array branch of `try_child_value`, by the fixed size of the element type's own info. */
  function ArrayChild(v: Variant, index: nat, intended: bool): (r: Option<Variant>)
    requires |v.typ| > 0 && IsArray(v.typ)
    ensures r.Some? ==> r.value.typ == TypeElement(v.typ) && |r.value.data| <= |v.data|
  {
    var elem := TypeElement(v.typ);
    match TypeInfoOf(elem)
    case None => None
    case Some(elemInfo) =>
      if elemInfo.fixedSize != 0 then FixedElement(v.data, index, elemInfo.fixedSize, elem)
      else VariableElement(v.data, index, elem, intended)
  }

  /**
   * The tuple branch of `try_child_value`: the member walk, with the offsets ending where the
   * data ends and starting one offset per variable-size member, the last excepted, before.
   */
  function TupleChild(v: Variant, info: TypeInfo, index: nat, intended: bool): (r: Option<Variant>)
    ensures r.Some? ==> info.tuple.Some? && |r.value.data| <= |v.data|
    ensures r.Some? && info.tuple.Some? && index < |info.tuple.value.memberInfo| ==>
      index < |info.tuple.value.memberTypes| && r.value.typ == info.tuple.value.memberTypes[index]
  {
    match info.tuple
    case None => None
    case Some(t) =>
      var w := OffsetItemSize(|v.data|);
      var offsetsStart :=
        if t.nUnsized == 0 then (if intended then Some(|v.data|) else None)
        else if w * (t.nUnsized - 1) > |v.data| then None
        else Some(|v.data| - w * (t.nUnsized - 1));
      match offsetsStart
      case None => None
      case Some(offsetsStart) =>
        match TupleWalk(v.data, t, w, offsetsStart, index, 0, 0, 0, ANY_TYPE)
        case None => None
        case Some(walked) =>
          var bounded := if intended then walked.found else walked.offsetEnd != 0;
          if bounded then
            if walked.offset <= walked.offsetEnd <= |v.data|
            then FromDataWithType(v.data[walked.offset..walked.offsetEnd], walked.typ)
            else None
          else if walked.offset <= |v.data| then FromDataWithType(v.data[walked.offset..], walked.typ)
          else None
  }

  /** The variant branch of `try_child_value`: data, a zero byte, then a valid type string. */
  function VariantChild(v: Variant): (r: Option<Variant>)
    ensures r.Some? ==> ValidType(r.value.typ) && r.value.data + [0] + r.value.typ == v.data
  {
    match SeparatorFrom(v.data, 0)
    case None => None
    case Some(typeInfoOffset) =>
      var childType := v.data[typeInfoOffset..];
      if ValidUtf8(childType) && ValidType(childType)
      then FromDataWithType(v.data[..typeInfoOffset - 1], childType)
      else None
  }

  /**
   * `try_child_value`: child `index` of an array (cut out by its fixed size, or between its
   * end offsets), of a maybe (all the data), of a tuple (found by the member walk) or of a
   * variant (the data before the separating zero, with the type string after it). None for
   * an index past the children, for other types, and where the code panics. With
   * `intended`, an empty variable-size array has no children, a tuple of fixed-size members
   * has no offsets, and a tuple child that ends at byte 0 is empty instead of all the data.
   */
  function ChildAt(v: Variant, index: nat, intended: bool): (r: Option<Variant>)
    ensures r.Some? ==> Children(v, intended).Some? && index < Children(v, intended).value
    ensures r.Some? ==> |r.value.data| <= |v.data|
    ensures r.Some? && (IsArray(v.typ) || IsMaybe(v.typ)) ==> r.value.typ == TypeElement(v.typ)
  {
    match Children(v, intended)
    case None => None
    case Some(n) =>
      if n <= index then None
      else if IsArray(v.typ) then ArrayChild(v, index, intended)
      else if IsMaybe(v.typ) then FromDataWithType(v.data, TypeElement(v.typ))
      else if IsTuple(v.typ) then TupleChild(v, TypeInfoOf(v.typ).value, index, intended)
      else if IsVariant(v.typ) then VariantChild(v)
      else None
  }

  /** `try_child_value` as written. */
  function ChildValue(v: Variant, index: nat): (r: Option<Variant>)
    ensures r.Some? ==> NChildren(v).Some? && index < NChildren(v).value
  {
    ChildAt(v, index, false)
  }

  /** `try_child_value` as evidently meant. */
  function IntendedChildValue(v: Variant, index: nat): (r: Option<Variant>)
    ensures r.Some? ==> IntendedNChildren(v).Some? && index < IntendedNChildren(v).value
  {
    ChildAt(v, index, true)
  }

  // ---------------------------------------------------------------------------------------
  // `tuple_from_iter`
  // ---------------------------------------------------------------------------------------

  function Zeros(n: nat): (r: bytes)
    ensures |r| == n && forall i | 0 <= i < n :: r[i] == 0
  {
    seq(n, _ => 0)
  }

  /** Padding reaches the first multiple of the alignment: none lies between. */
  lemma PadLeast(size: nat, alignment: nat, m: nat)
    requires alignment > 0 && m % alignment == 0 && m >= size
    ensures Pad(size, alignment) <= m
  {
    PadRoundsUp(size, alignment);
    var q, r := size / alignment, size % alignment;
    var k := m / alignment;
    assert size == q * alignment + r;
    assert m == k * alignment;
    if r != 0 {
      assert (k - q) * alignment > 0;
      MultipleBounds(k - q - 1, alignment);
      assert m >= (q + 1) * alignment;
    }
  }

  function Reversed(xs: seq<nat>): (r: seq<nat>)
    ensures |r| == |xs|
    ensures forall i | 0 <= i < |xs| :: r[i] == xs[|xs| - 1 - i]
  {
    if xs == [] then [] else Reversed(xs[1..]) + [xs[0]]
  }

  /**
   * The loop of `tuple_from_iter` from child k on, carrying the type string, the data and
   * the offsets built so far: each child's data is padded with zeros to its alignment and
   * appended, and the end of every variable-size child but the last becomes an offset.
   * None where the code panics: a child's type has no info or has alignment 0.
   */
  function TupleLoop(children: seq<Variant>, k: nat, types: bytes, data: bytes, offsets: seq<nat>): (r: Option<(bytes, bytes, seq<nat>)>)
    requires k <= |children|
    ensures r.Some? ==> types <= r.value.0
    decreases |children| - k
  {
    if k == |children| then Some((types, data, offsets))
    else
      var child := children[k];
      match TypeInfoOf(child.typ)
      case None => None
      case Some(info) =>
        if info.alignment == 0 then None
        else
          var padded := data + Zeros(Pad(|data|, info.alignment) - |data|);
          var data' := padded + child.data;
          var offsets' := if info.fixedSize == 0 && k + 1 < |children| then offsets + [|data'|] else offsets;
          TupleLoop(children, k + 1, types + child.typ, data', offsets')
  }

  /**
   * `tuple_from_iter`: the children laid out by the loop, a single zero byte for the empty
   * tuple, then the offsets in reverse order; the type is the children's types between
   * brackets, taken unchecked. None where the code panics.
   */
  function TupleOf(children: seq<Variant>): (r: Option<Variant>)
    ensures r.Some? ==> |r.value.typ| >= 2 && r.value.typ[0] == CLASS_TUPLE && r.value.typ[|r.value.typ| - 1] == TUPLE_END
  {
    match TupleLoop(children, 0, [CLASS_TUPLE], [], [])
    case None => None
    case Some((types, data, offsets)) =>
      var data := if children == [] then data + [0] else data;
      var offsets := Reversed(offsets);
      FromDataWithType(data + OffsetBytes(offsets, OffsetSizeForN(|data|, |offsets|)), types + [TUPLE_END])
  }

  /** The loop of `tuple_from_iter`, with its inner loop that pads with zeros. */
  method TupleFromIter(children: seq<Variant>) returns (r: Option<Variant>)
    ensures r == TupleOf(children)
  {
    var offsets: seq<nat> := [];
    var types: bytes := [CLASS_TUPLE];
    var data: bytes := [];
    var k := 0;
    while k < |children|
      invariant k <= |children|
      invariant TupleLoop(children, k, types, data, offsets) == TupleLoop(children, 0, [CLASS_TUPLE], [], [])
      decreases |children| - k
    {
      var child := children[k];
      types := types + child.typ;
      var info := TypeInfoOf(child.typ);
      if info.None? || info.value.alignment == 0 {
        return None;
      }
      var alignment := info.value.alignment;
      ghost var before := data;
      PadRoundsUp(|before|, alignment);
      while |data| % alignment != 0
        invariant |before| <= |data| <= Pad(|before|, alignment)
        invariant data == before + Zeros(|data| - |before|)
        decreases Pad(|before|, alignment) - |data|
      {
        data := data + [0];
      }
      PadLeast(|before|, alignment, |data|);
      data := data + child.data;
      if info.value.fixedSize == 0 && k + 1 < |children| {
        offsets := offsets + [|data|];
      }
      k := k + 1;
    }
    types := types + [TUPLE_END];
    if |children| == 0 {
      data := data + [0];
    }
    offsets := Reversed(offsets);
    data := AddOffsets(data, offsets);
    r := FromDataWithType(data, types);
  }

  // ---------------------------------------------------------------------------------------
  // `from_variant`, `new_string`, `str`
  // ---------------------------------------------------------------------------------------

  /**
   * `from_variant`: a `v` whose data is the child's data, a zero byte and the child's type
   * string. None where the type string holds a zero byte (`CString::new` fails).
   */
  function FromVariant(x: Variant): (r: Option<Variant>)
    ensures r.Some? <==> forall i | 0 <= i < |x.typ| :: x.typ[i] != 0
    ensures r.Some? ==> r.value.typ == [CLASS_VARIANT] && r.value.data == x.data + [0] + x.typ
  {
    if exists i | 0 <= i < |x.typ| :: x.typ[i] == 0 then None
    else FromDataWithType(x.data + [0] + x.typ, [CLASS_VARIANT])
  }

  /**
   * `new_string`: an `s` whose data is the string and a zero byte. The string is UTF-8 by
   * its Rust type; None where it holds a zero byte (`CString::new` fails).
   */
  function NewString(s: bytes): (r: Option<Variant>)
    requires ValidUtf8(s)
    ensures r.Some? <==> forall i | 0 <= i < |s| :: s[i] != 0
    ensures r.Some? ==> r.value.typ == [CLASS_STRING] && r.value.data == s + [0]
  {
    if exists i | 0 <= i < |s| :: s[i] == 0 then None
    else FromDataWithType(s + [0], [CLASS_STRING])
  }

  /**
   * `str`: for a value whose type is a subtype of `s`, the empty string for no data, else the
   * data without its last byte, which must be the only zero byte, when that is UTF-8.
   * None otherwise, and where `is_subtype_of` panics.
   */
  function Str(v: Variant): (r: Option<bytes>)
    ensures r.Some? ==> Subtype(v.typ, [CLASS_STRING]) == Some(true)
    ensures r.Some? ==> ValidUtf8(r.value) && (forall i | 0 <= i < |r.value| :: r.value[i] != 0)
    ensures r.Some? ==> v.data == [] || v.data == r.value + [0]
  {
    match Subtype(v.typ, [CLASS_STRING])
    case None => None
    case Some(isString) =>
      if !isString then None
      else if v.data == [] then Some([])
      else
        var text := v.data[..|v.data| - 1];
        if v.data[|v.data| - 1] != 0 || exists i | 0 <= i < |text| :: text[i] == 0 then None
        else if ValidUtf8(text) then Some(text)
        else None
  }

  // ---------------------------------------------------------------------------------------
  // Boxed values and strings give back what they wrap
  // ---------------------------------------------------------------------------------------

  /** Scanning back from the end, the first zero byte met is the one just before the last k bytes. */
  lemma {:induction false} SeparatorBeforeLast(data: bytes, k: nat, index: nat)
    requires 0 < k < |data| && data[|data| - 1 - k] == 0
    requires forall j | |data| - k <= j < |data| :: data[j] != 0
    requires index <= k
    ensures SeparatorFrom(data, index) == Some(|data| - k)
    decreases k - index
  {
    if index < k {
      SeparatorBeforeLast(data, k, index + 1);
    }
  }

  /**
   * A value boxed by `from_variant` has one child, and that child is the value again, as
   * written and as intended, whenever the value's type has an info.
   */
  lemma FromVariantRoundTrip(x: Variant, intended: bool)
    requires ValidType(x.typ) && TypeInfoOf(x.typ).Some?
    ensures FromVariant(x) == Some(Variant([CLASS_VARIANT], x.data + [0] + x.typ))
    ensures Children(FromVariant(x).value, intended) == Some(1)
    ensures ChildAt(FromVariant(x).value, 0, intended) == Some(x)
  {
    ValidTypeIsPrintable(x.typ);
    var d := x.data + [0] + x.typ;
    assert TypeInfoOf([CLASS_VARIANT]) == Some(VariantInfo(8, 0));
    BoxedChild(x, d);
  }

  /** The child of the boxed data is the value: its type follows the last zero. */
  lemma BoxedChild(x: Variant, d: bytes)
    requires ValidType(x.typ) && TypeInfoOf(x.typ).Some? && d == x.data + [0] + x.typ
    ensures VariantChild(Variant([CLASS_VARIANT], d)) == Some(x)
  {
    ValidTypeIsPrintable(x.typ);
    AsciiValid(x.typ);
    var k := |x.typ|;
    assert forall j | |d| - k <= j < |d| :: d[j] == x.typ[j - (|d| - k)];
    SeparatorBeforeLast(d, k, 0);
    var p := |d| - k;
    assert d[p..] == x.typ;
    assert d[..p - 1] == x.data;
    assert ValidUtf8(d[p..]) && ValidType(d[p..]);
  }

  /**
   * `str` gives back the string `new_string` was made from, and `new_string` fails exactly
   * when the string holds a zero byte.
   */
  lemma StrOfNewString(s: bytes)
    requires ValidUtf8(s)
    ensures NewString(s).Some? <==> forall i | 0 <= i < |s| :: s[i] != 0
    ensures NewString(s).Some? ==> NewString(s).value == Variant([CLASS_STRING], s + [0])
    ensures NewString(s).Some? ==> Str(NewString(s).value) == Some(s)
  {
    StringIsString();
    if NewString(s).Some? {
      assert (s + [0])[..|s|] == s;
    }
  }

  /** The type `s` is a valid type and a subtype of itself. */
  lemma StringIsString()
    ensures TypeInfoOf([CLASS_STRING]).Some?
    ensures Subtype([CLASS_STRING], [CLASS_STRING]) == Some(true)
  {
    var t: bytes := [CLASS_STRING];
    assert t[1..] == [];
    assert Subtype(t, t) == Walk([], [], false) == Some(true);
  }

  // ---------------------------------------------------------------------------------------
  // Arrays give back their children
  // ---------------------------------------------------------------------------------------

  lemma MulDiv(n: nat, a: nat)
    requires a > 0
    ensures (n * a) % a == 0 && (n * a) / a == n
  {
    MultipleMod(n, a);
    var q := (n * a) / a;
    assert n * a == q * a;
    assert (n - q) * a == 0;
    MultipleBounds(n - q, a);
  }

  /**
   * The array's own info, which looks at the element type's first character only, gives the
   * element size the element type's info gives.
   */
  predicate ElementSizesAgree(typ: bytes) {
    TypeInfoOf(typ).Some? && TypeInfoOf([CLASS_ARRAY] + typ).Some?
    && TypeInfoOf([CLASS_ARRAY] + typ).value.elementFixedSize == TypeInfoOf(typ).value.fixedSize
  }

  /** Arrays of one-character types are valid and their sizes agree. */
  lemma SingleCharElements(c: byte)
    requires IsSingleCharType(c)
    ensures ElementSizesAgree([c]) && NewArray([c]) == Some([CLASS_ARRAY, c])
  {
    assert [CLASS_ARRAY] + [c] == Print(Array(Single(c)));
    PrintedValid(Array(Single(c)));
    var s := [CLASS_ARRAY, c];
    assert [s[1]] == [c];
    assert Info([c]) == Some((CharInfo(c), 1));
    assert Info(s) == Some((ArrayInfo(CharInfo(c).alignment, 0, CharInfo(c).fixedSize), 2));
    assert TypeInfoOf([c]) == Some(CharInfo(c));
    assert [CLASS_ARRAY] + [c] == s;
    assert Depth(Array(Single(c))) == 2;
    assert ValidType(s);
    assert ElementSizesAgree([c]);
  }

  /** The bytes child i of an array of fixed-size children occupies. */
  lemma FixedChildAt(ds: seq<bytes>, size: nat, i: nat)
    requires forall j | 0 <= j < |ds| :: |ds[j]| == size
    requires i < |ds|
    ensures i * size + size <= |Concat(ds)|
    ensures Concat(ds)[i * size..i * size + size] == ds[i]
  {
    ConcatAt(ds, i);
    ConcatUniform(ds[..i], size);
    assert |ds[..i]| == i;
  }

  /** Child i of an array of fixed-size children comes back with its type and data. */
  lemma FixedArrayChild(typ: bytes, children: seq<Variant>, intended: bool, i: nat)
    requires ElementSizesAgree(typ) && NewArray(typ).Some?
    requires TypeInfoOf(typ).value.fixedSize > 0
    requires forall j | 0 <= j < |children| :: children[j].typ == typ && |children[j].data| == TypeInfoOf(typ).value.fixedSize
    requires i < |children|
    ensures ArrayOf(typ, children) == Some(Variant([CLASS_ARRAY] + typ, Concat(Datas(children))))
    ensures Children(ArrayOf(typ, children).value, intended) == Some(|children|)
    ensures ChildAt(ArrayOf(typ, children).value, i, intended) == Some(children[i])
  {
    var size := TypeInfoOf(typ).value.fixedSize;
    var ds := Datas(children);
    assert ArrayData(ds, false) == Concat(ds);
    var a := Variant([CLASS_ARRAY] + typ, Concat(ds));
    ConcatUniform(ds, size);
    MulDiv(|ds|, size);
    assert Children(a, intended) == Some(|children|);
    assert TypeElement(a.typ) == typ;
    FixedChildAt(ds, size, i);
  }

  /**
   * An array of fixed-size children gives back as many children as it was built from, each
   * with its type and data, as written and as intended.
   */
  lemma FixedArrayRoundTrip(typ: bytes, children: seq<Variant>, intended: bool)
    requires ElementSizesAgree(typ) && NewArray(typ).Some?
    requires TypeInfoOf(typ).value.fixedSize > 0
    requires forall j | 0 <= j < |children| :: children[j].typ == typ && |children[j].data| == TypeInfoOf(typ).value.fixedSize
    ensures ArrayOf(typ, children).Some?
    ensures Children(ArrayOf(typ, children).value, intended) == Some(|children|)
    ensures forall i | 0 <= i < |children| :: ChildAt(ArrayOf(typ, children).value, i, intended) == Some(children[i])
  {
    var ds := Datas(children);
    assert ArrayData(ds, false) == Concat(ds);
    var a := Variant([CLASS_ARRAY] + typ, Concat(ds));
    if children == [] {
      assert Concat(ds) == [];
      assert Children(a, intended) == Some(0);
    } else {
      FixedArrayChild(typ, children, intended, 0);
    }
    forall i | 0 <= i < |children|
      ensures ChildAt(ArrayOf(typ, children).value, i, intended) == Some(children[i])
    {
      FixedArrayChild(typ, children, intended, i);
    }
  }

  /** Offset k of those written after `prefix` reads back, when it fits the width. */
  lemma ReadOffset(prefix: bytes, offsets: seq<nat>, w: nat, k: nat)
    requires IsAlignment(w) && k < |offsets| && offsets[k] < Pow256(w)
    ensures |prefix| + k * w + w <= |prefix + OffsetBytes(offsets, w)|
    ensures ReadUnalignedLe((prefix + OffsetBytes(offsets, w))[|prefix| + k * w..|prefix| + k * w + w], w) == Some(offsets[k])
  {
    OffsetImageAt(prefix, offsets, w, k);
    ReadImage(prefix + OffsetBytes(offsets, w), |prefix| + k * w, w, offsets[k]);
  }

  /** `ReadOffset` with the joined bytes and the slot's position named by the caller. */
  lemma ReadSlot(prefix: bytes, offsets: seq<nat>, w: nat, k: nat, d: bytes, bucket: nat)
    requires IsAlignment(w) && k < |offsets| && offsets[k] < Pow256(w)
    requires d == prefix + OffsetBytes(offsets, w) && bucket == |prefix| + k * w
    ensures bucket + w <= |d| && ReadUnalignedLe(d[bucket..bucket + w], w) == Some(offsets[k])
  {
    ReadOffset(prefix, offsets, w, k);
  }

  /** Offset k of those written after `prefix` sits k offsets after it. */
  lemma OffsetImageAt(prefix: bytes, offsets: seq<nat>, w: nat, k: nat)
    requires IsAlignment(w) && k < |offsets|
    ensures |prefix| + k * w + w <= |prefix + OffsetBytes(offsets, w)|
    ensures (prefix + OffsetBytes(offsets, w))[|prefix| + k * w..|prefix| + k * w + w] == LeBytes(offsets[k], w)
  {
    OffsetBytesAt(offsets, w, k);
    SliceAfter(prefix, OffsetBytes(offsets, w), k * w, k * w + w);
  }

  /** The image of a number that fits the width reads back. */
  lemma ReadImage(d: bytes, p: nat, w: nat, x: nat)
    requires IsAlignment(w) && x < Pow256(w) && p + w <= |d| && d[p..p + w] == LeBytes(x, w)
    ensures ReadUnalignedLe(d[p..p + w], w) == Some(x)
  {
    assert LeBytes(x, w) + [] == LeBytes(x, w);
    ReadWritten(x, w, []);
  }

  /** A slice of what follows `a` in `a + b` is the same slice of b. */
  lemma SliceAfter(a: bytes, b: bytes, i: nat, j: nat)
    requires i <= j <= |b|
    ensures (a + b)[|a| + i..|a| + j] == b[i..j]
  {
  }

  /** The width the writer picks holds every length below the `usize` limit. */
  lemma WidthHolds(dataLen: nat, n: nat)
    requires dataLen < USIZE_LIMIT
    ensures dataLen < Pow256(OffsetSizeForN(dataLen, n))
  {
    OffsetSizeFits(dataLen, n);
    assert Pow256(8) == USIZE_LIMIT;
  }

  /** `variable_length_array_offsets_size` of data whose last offset reads as `lastEnd`. */
  lemma OffsetsArraySizeOf(d: bytes, w: nat, lastEnd: nat, intended: bool)
    requires |d| > 0 && IsAlignment(w) && OffsetItemSize(|d|) == w
    requires lastEnd <= |d| && (|d| - lastEnd) % w == 0
    requires ReadUnalignedLe(d[|d| - w..|d|], w) == Some(lastEnd)
    ensures OffsetsArraySize(d, intended) == Some(|d| - lastEnd)
  {
    assert d[|d| - w..] == d[|d| - w..|d|];
  }

  /** The offsets of a variable-size array take n offsets' worth of bytes at its end. */
  lemma VariableArrayOffsets(ds: seq<bytes>, intended: bool)
    requires |ds| > 0 && |Concat(ds)| < USIZE_LIMIT
    ensures var w := OffsetSizeForN(|Concat(ds)|, |ds|);
      && |ArrayData(ds, true)| == |Concat(ds)| + |ds| * w
      && OffsetItemSize(|ArrayData(ds, true)|) == w
      && OffsetsArraySize(ArrayData(ds, true), intended) == Some(|ds| * w)
  {
    var c, n := |Concat(ds)|, |ds|;
    var w := OffsetSizeForN(c, n);
    var ends := Ends(ds);
    assert ArrayData(ds, true) == Concat(ds) + OffsetBytes(ends, w);
    EndsAt(ds, n - 1);
    assert ds[..n] == ds;
    WidthHolds(c, n);
    OffsetSizesAgree(c, n);
    OffsetTable(Concat(ds), ends, w, intended);
  }

  /**
   * Data followed by offsets whose last is the data's length, in a width that holds it and
   * that the reader infers: the offsets take n offsets' worth of bytes.
   */
  lemma OffsetTable(data: bytes, offsets: seq<nat>, w: nat, intended: bool)
    requires IsAlignment(w) && |offsets| > 0 && offsets[|offsets| - 1] == |data| < Pow256(w)
    requires OffsetItemSize(|data| + |offsets| * w) == w
    ensures |data + OffsetBytes(offsets, w)| == |data| + |offsets| * w
    ensures OffsetsArraySize(data + OffsetBytes(offsets, w), intended) == Some(|offsets| * w)
  {
    var m: nat := |offsets| - 1;
    var os := |offsets| * w;
    LastSlot(m, w, os);
    TableEnd(data, offsets, w, m, os, intended);
  }

  /** `OffsetTable` with the last offset's index and the offsets' size named by the caller. */
  lemma TableEnd(data: bytes, offsets: seq<nat>, w: nat, m: nat, os: nat, intended: bool)
    requires IsAlignment(w) && |offsets| == m + 1 && offsets[m] == |data| < Pow256(w)
    requires os == |offsets| * w && m * w + w == os
    requires OffsetItemSize(|data| + os) == w
    ensures |data + OffsetBytes(offsets, w)| == |data| + os
    ensures OffsetsArraySize(data + OffsetBytes(offsets, w), intended) == Some(os)
  {
    var d := data + OffsetBytes(offsets, w);
    var last := |data| + m * w;
    ReadSlot(data, offsets, w, m, d, last);
    assert |d| == |data| + os;
    MulDiv(|offsets|, w);
    assert d[|d| - w..|d|] == d[last..last + w];
    OffsetsArraySizeOf(d, w, |data|, intended);
  }

  lemma LastSlot(m: nat, w: nat, os: nat)
    requires os == (m + 1) * w
    ensures m * w + w == os
  {
  }

  /**
   * Child i of an array laid out as data and its children's end offsets lies between the
   * previous child's end, or 0, and its own end.
   */
  lemma TableElement(data: bytes, offsets: seq<nat>, w: nat, i: nat, elem: bytes, intended: bool, d: bytes)
    requires IsAlignment(w) && |offsets| > 0 && offsets[|offsets| - 1] == |data| < Pow256(w)
    requires OffsetItemSize(|data| + |offsets| * w) == w
    requires i < |offsets| && offsets[i] <= |data|
    requires i > 0 ==> offsets[i - 1] <= offsets[i]
    requires d == data + OffsetBytes(offsets, w)
    ensures VariableElement(d, i, elem, intended)
      == FromDataWithType(data[(if i == 0 then 0 else offsets[i - 1])..offsets[i]], elem)
  {
    var os := |offsets| * w;
    OffsetTable(data, offsets, w, intended);
    if i == 0 {
      FirstTableElement(data, offsets, w, elem, intended, d, os);
    } else {
      var j: nat := i - 1;
      LaterTableElement(data, offsets, w, j, elem, intended, d, os);
    }
  }

  /** The first child of such an array starts at 0. */
  lemma FirstTableElement(data: bytes, offsets: seq<nat>, w: nat, elem: bytes, intended: bool, d: bytes, os: nat)
    requires IsAlignment(w) && |offsets| > 0 && offsets[0] <= |data| < Pow256(w)
    requires OffsetItemSize(|d|) == w && d == data + OffsetBytes(offsets, w)
    requires |d| == |data| + os && OffsetsArraySize(d, intended) == Some(os)
    ensures VariableElement(d, 0, elem, intended) == FromDataWithType(data[0..offsets[0]], elem)
  {
    var bucket := |data| + 0 * w;
    ReadSlot(data, offsets, w, 0, d, bucket);
    ElementBetween(d, 0, elem, intended, w, os, bucket, 0, offsets[0]);
    SliceOfPrefix(data, d, 0, offsets[0]);
  }

  /** Child j + 1 of such an array starts where child j ends. */
  lemma LaterTableElement(data: bytes, offsets: seq<nat>, w: nat, j: nat, elem: bytes, intended: bool, d: bytes, os: nat)
    requires IsAlignment(w) && j + 1 < |offsets| && offsets[j] <= offsets[j + 1] <= |data| < Pow256(w)
    requires OffsetItemSize(|d|) == w && d == data + OffsetBytes(offsets, w)
    requires |d| == |data| + os && OffsetsArraySize(d, intended) == Some(os)
    ensures VariableElement(d, j + 1, elem, intended) == FromDataWithType(data[offsets[j]..offsets[j + 1]], elem)
  {
    var bucket := |data| + (j + 1) * w;
    LaterSlots(data, offsets, w, j, d, bucket);
    ElementBetween(d, j + 1, elem, intended, w, os, bucket, offsets[j], offsets[j + 1]);
    SliceOfPrefix(data, d, offsets[j], offsets[j + 1]);
  }

  /** The slots of child j + 1 and of child j hold its end and its start. */
  lemma LaterSlots(data: bytes, offsets: seq<nat>, w: nat, j: nat, d: bytes, bucket: nat)
    requires IsAlignment(w) && j + 1 < |offsets| && offsets[j] <= offsets[j + 1] < Pow256(w)
    requires d == data + OffsetBytes(offsets, w) && bucket == |data| + (j + 1) * w
    ensures data <= d && bucket + w <= |d| && ReadUnalignedLe(d[bucket..bucket + w], w) == Some(offsets[j + 1])
    ensures w <= bucket && ReadUnalignedLe(d[bucket - w..bucket], w) == Some(offsets[j])
  {
    ReadSlot(data, offsets, w, j + 1, d, bucket);
    PrevSlot(data, offsets, w, j, d, bucket);
  }

  lemma SliceOfPrefix(a: bytes, b: bytes, i: nat, j: nat)
    requires a <= b && i <= j <= |a|
    ensures b[i..j] == a[i..j]
  {
  }

  /** The slot before that of child i, when there is one, holds child i's start. */
  lemma PrevSlot(data: bytes, offsets: seq<nat>, w: nat, j: nat, d: bytes, bucket: nat)
    requires IsAlignment(w) && j + 1 < |offsets| && offsets[j] < Pow256(w)
    requires d == data + OffsetBytes(offsets, w) && bucket == |data| + (j + 1) * w
    ensures w <= bucket && ReadUnalignedLe(d[bucket - w..bucket], w) == Some(offsets[j])
  {
    var prev := |data| + j * w;
    assert prev + w == bucket;
    ReadSlot(data, offsets, w, j, d, prev);
  }

  /** Child i of a variable-size array lies between the two offsets read before and at its slot. */
  lemma ElementBetween(d: bytes, i: nat, elem: bytes, intended: bool, w: nat, os: nat, bucket: nat, start: nat, end: nat)
    requires OffsetItemSize(|d|) == w && OffsetsArraySize(d, intended) == Some(os)
    requires bucket == |d| - os + i * w && bucket + w <= |d|
    requires ReadUnalignedLe(d[bucket..bucket + w], w) == Some(end)
    requires i == 0 ==> start == 0
    requires i > 0 ==> (w <= bucket && ReadUnalignedLe(d[bucket - w..bucket], w) == Some(start))
    requires start <= end <= |d|
    ensures VariableElement(d, i, elem, intended) == FromDataWithType(d[start..end], elem)
  {
  }

  /** Child i of the data of a variable-size array lies between its neighbours' ends. */
  lemma VariableElementOf(ds: seq<bytes>, i: nat, elem: bytes, intended: bool)
    requires i < |ds| && |Concat(ds)| < USIZE_LIMIT
    ensures VariableElement(ArrayData(ds, true), i, elem, intended) == FromDataWithType(ds[i], elem)
  {
    var c, n := |Concat(ds)|, |ds|;
    var w := OffsetSizeForN(c, n);
    var ends := Ends(ds);
    var d := ArrayData(ds, true);
    assert d == Concat(ds) + OffsetBytes(ends, w);
    EndsBracket(ds, i);
    WidthHolds(c, n);
    OffsetSizesAgree(c, n);
    TableElement(Concat(ds), ends, w, i, elem, intended, d);
  }

  /** The ends of children i - 1 and i bracket child i's data, and the last end is the total. */
  lemma EndsBracket(ds: seq<bytes>, i: nat)
    requires i < |ds|
    ensures Ends(ds)[|ds| - 1] == |Concat(ds)|
    ensures Ends(ds)[i] <= |Concat(ds)| && (i > 0 ==> Ends(ds)[i - 1] <= Ends(ds)[i])
    ensures Concat(ds)[(if i == 0 then 0 else Ends(ds)[i - 1])..Ends(ds)[i]] == ds[i]
  {
    var n := |ds|;
    EndsAt(ds, n - 1);
    assert ds[..n] == ds;
    EndsAt(ds, i);
    ConcatAt(ds, i);
    if i > 0 {
      EndsAt(ds, i - 1);
      assert ds[..i - 1 + 1] == ds[..i];
    } else {
      assert Concat(ds[..0]) == [];
    }
  }

  /** An array of variable-size children is written with its offsets and counts them back. */
  lemma VariableArrayShape(typ: bytes, children: seq<Variant>, intended: bool)
    requires ElementSizesAgree(typ) && NewArray(typ).Some?
    requires TypeInfoOf(typ).value.fixedSize == 0
    requires forall j | 0 <= j < |children| :: children[j].typ == typ
    requires |Concat(Datas(children))| < USIZE_LIMIT && |children| > 0
    ensures ArrayOf(typ, children) == Some(Variant([CLASS_ARRAY] + typ, ArrayData(Datas(children), true)))
    ensures Children(ArrayOf(typ, children).value, intended) == Some(|children|)
  {
    var ds := Datas(children);
    ArrayOfTyped(typ, children);
    VariableArrayOffsets(ds, intended);
    OffsetCount(typ, ArrayData(ds, true), intended, |ds|, OffsetSizeForN(|Concat(ds)|, |ds|));
  }

  /** Children that all have the element type make an array of their data. */
  lemma ArrayOfTyped(typ: bytes, children: seq<Variant>)
    requires ElementSizesAgree(typ) && NewArray(typ).Some?
    requires forall j | 0 <= j < |children| :: children[j].typ == typ
    ensures ArrayOf(typ, children)
      == Some(Variant([CLASS_ARRAY] + typ, ArrayData(Datas(children), TypeInfoOf(typ).value.fixedSize == 0)))
  {
  }

  /** An array whose offsets take n offsets' worth of bytes has n children. */
  lemma OffsetCount(typ: bytes, d: bytes, intended: bool, n: nat, w: nat)
    requires ElementSizesAgree(typ) && TypeInfoOf(typ).value.fixedSize == 0
    requires IsAlignment(w) && n > 0
    requires OffsetItemSize(|d|) == w && OffsetsArraySize(d, intended) == Some(n * w)
    ensures Children(Variant([CLASS_ARRAY] + typ, d), intended) == Some(n)
  {
    MulDiv(n, w);
  }

  /** Child i of an array of variable-size children comes back with its type and data. */
  lemma VariableArrayChild(typ: bytes, children: seq<Variant>, intended: bool, i: nat)
    requires ElementSizesAgree(typ) && NewArray(typ).Some?
    requires TypeInfoOf(typ).value.fixedSize == 0
    requires forall j | 0 <= j < |children| :: children[j].typ == typ
    requires |Concat(Datas(children))| < USIZE_LIMIT
    requires i < |children|
    ensures ArrayOf(typ, children) == Some(Variant([CLASS_ARRAY] + typ, ArrayData(Datas(children), true)))
    ensures Children(ArrayOf(typ, children).value, intended) == Some(|children|)
    ensures ChildAt(ArrayOf(typ, children).value, i, intended) == Some(children[i])
  {
    var a := Variant([CLASS_ARRAY] + typ, ArrayData(Datas(children), true));
    VariableArrayShape(typ, children, intended);
    assert TypeElement(a.typ) == typ;
    VariableElementOf(Datas(children), i, typ, intended);
  }

  /**
   * An array of variable-size children gives back as many children as it was built from,
   * each with its type and data, as long as there is at least one child; as intended, also
   * with none.
   */
  lemma VariableArrayRoundTrip(typ: bytes, children: seq<Variant>, intended: bool)
    requires ElementSizesAgree(typ) && NewArray(typ).Some?
    requires TypeInfoOf(typ).value.fixedSize == 0
    requires forall j | 0 <= j < |children| :: children[j].typ == typ
    requires |Concat(Datas(children))| < USIZE_LIMIT
    requires |children| > 0 || intended
    ensures ArrayOf(typ, children).Some?
    ensures Children(ArrayOf(typ, children).value, intended) == Some(|children|)
    ensures forall i | 0 <= i < |children| :: ChildAt(ArrayOf(typ, children).value, i, intended) == Some(children[i])
  {
    if children == [] {
      var a := Variant([CLASS_ARRAY] + typ, ArrayData([], true));
      assert Datas(children) == [];
      assert ArrayData([], true) == [];
      assert ArrayOf(typ, children) == Some(a);
      assert Children(a, intended) == Some(0);
    } else {
      VariableArrayChild(typ, children, intended, 0);
    }
    forall i | 0 <= i < |children|
      ensures ChildAt(ArrayOf(typ, children).value, i, intended) == Some(children[i])
    {
      VariableArrayChild(typ, children, intended, i);
    }
  }

  /**
   * An empty array of strings cannot be taken apart: `n_children` reads an offset of width 0
   * from its empty data and panics. As intended, it has no children.
   */
  lemma EmptyVariableArrayPanics()
    ensures ArrayOf([CLASS_STRING], []) == Some(Variant([CLASS_ARRAY, CLASS_STRING], []))
    ensures NChildren(Variant([CLASS_ARRAY, CLASS_STRING], [])) == None
    ensures IntendedNChildren(Variant([CLASS_ARRAY, CLASS_STRING], [])) == Some(0)
  {
    SingleCharElements(CLASS_STRING);
    var children: seq<Variant> := [];
    assert Datas(children) == [];
    assert ArrayData([], true) == [];
    assert [CLASS_ARRAY] + [CLASS_STRING] == [CLASS_ARRAY, CLASS_STRING];
  }

  /**
   * The tuple of no members: `tuple_from_iter` writes the single zero byte GVariant gives
   * the unit `()`, and the value has no children.
   */
  lemma EmptyTupleData()
    ensures TupleOf([]) == Some(Variant([CLASS_TUPLE, TUPLE_END], [0]))
    ensures NChildren(Variant([CLASS_TUPLE, TUPLE_END], [0])) == Some(0)
  {
    EmptyTupleInfo();
    var none: seq<Variant> := [];
    var noOffsets: seq<nat> := [];
    var noData: bytes := [];
    assert TupleLoop(none, 0, [CLASS_TUPLE], noData, noOffsets) == Some(([CLASS_TUPLE], noData, noOffsets));
    assert Reversed(noOffsets) == noOffsets;
    assert OffsetBytes(noOffsets, OffsetSizeForN(1, 0)) == [];
    assert noData + [0] + [] == [0];
    assert [CLASS_TUPLE] + [TUPLE_END] == [CLASS_TUPLE, TUPLE_END];
    assert TypeInfoOf([CLASS_TUPLE, TUPLE_END]) == Some(TupleInfo(0, 0, 0, TupleTypeInfo([], [], 0)));
  }

  /**
   * A tuple of fixed-size members has no offsets, and the tuple branch subtracts one from
   * their count of zero, which panics: `(y)` built from one byte cannot be taken apart. As
   * intended, the offsets start at the end of the data and the byte comes back.
   */
  lemma FixedTupleChildPanics()
    ensures TupleOf([Variant([CLASS_BYTE], [7])]) == Some(Variant([CLASS_TUPLE, CLASS_BYTE, TUPLE_END], [7]))
    ensures NChildren(Variant([CLASS_TUPLE, CLASS_BYTE, TUPLE_END], [7])) == Some(1)
    ensures ChildValue(Variant([CLASS_TUPLE, CLASS_BYTE, TUPLE_END], [7]), 0) == None
    ensures IntendedChildValue(Variant([CLASS_TUPLE, CLASS_BYTE, TUPLE_END], [7]), 0) == Some(Variant([CLASS_BYTE], [7]))
  {
    var y: bytes := [CLASS_BYTE];
    var c := Variant(y, [7]);
    var s: bytes := [CLASS_TUPLE, CLASS_BYTE, TUPLE_END];
    assert TypeInfoOf(y) == Some(FixedAligned(1));
    assert Pad(0, 1) == 0 && Zeros(0) == [];
    assert [] + Zeros(Pad(0, 1) - 0) + c.data == [7];
    assert TupleLoop([c], 1, [CLASS_TUPLE] + y, [7], []) == Some(([CLASS_TUPLE] + y, [7], []));
    assert TupleLoop([c], 0, [CLASS_TUPLE], [], []) == Some(([CLASS_TUPLE] + y, [7], []));
    assert [CLASS_TUPLE] + y + [TUPLE_END] == s;
    var rest := s[1..];
    assert rest == [CLASS_BYTE, TUPLE_END];
    assert StringLength(rest) == Some(1);
    assert Info(rest) == Some((FixedAligned(1), 1));
    assert rest[..1] == y;
    var l := Step(EmptyLayout(), y, FixedAligned(1));
    assert Pad(0, 1) + 1 == 1;
    assert l == Layout(1, 1, [y], [FixedAligned(1)], 0);
    assert Members(s, 2, l) == Some((l, 2));
    assert Members(s, 1, EmptyLayout()) == Some((l, 2));
    var t := TupleTypeInfo([y], [FixedAligned(1)], 0);
    assert TypeInfoOf(s) == Some(TupleInfo(1, 1, 1, t));
    assert Reversed([]) == [] && OffsetBytes([], OffsetSizeForN(1, 0)) == [];
    assert [7] + OffsetBytes(Reversed([]), OffsetSizeForN(|[7]|, |Reversed([])|)) == [7];
    var v := Variant(s, [7]);
    assert t.memberInfo[0].alignment == 1 && t.memberInfo[0].fixedSize == 1;
    assert MemberSize(v.data, t, 1, 1, 0, 0, 0) == Some(1);
    assert TupleWalk(v.data, t, 1, 1, 0, 0, 0, 0, ANY_TYPE) == Some(Walked(0, 1, y, true));
    assert v.data[0..1] == [7];
  }

  /** The members of `(ayy)`: `ay` has array info of alignment 1, `y` is one aligned byte. */
  lemma EmptyFirstMembers()
    ensures TypeInfoOf([CLASS_BYTE]) == Some(FixedAligned(1))
    ensures Info([CLASS_ARRAY, CLASS_BYTE]) == Some((ArrayInfo(1, 0, 1), 2))
    ensures TypeInfoOf([CLASS_ARRAY, CLASS_BYTE]) == Some(ArrayInfo(1, 0, 1))
  {
    var y: bytes := [CLASS_BYTE];
    var ay: bytes := [CLASS_ARRAY, CLASS_BYTE];
    assert TypeInfoOf(y) == Some(FixedAligned(1));
    assert [ay[1]] == y;
    assert Info(ay) == Some((ArrayInfo(1, 0, 1), 2));
  }

  /** The info of `(ayy)`: one offset, for the array that is not last. */
  lemma EmptyFirstTupleInfo()
    ensures
      var ay: bytes := [CLASS_ARRAY, CLASS_BYTE];
      var s: bytes := [CLASS_TUPLE, CLASS_ARRAY, CLASS_BYTE, CLASS_BYTE, TUPLE_END];
      TypeInfoOf(s) == Some(TupleInfo(1, 0, 2, TupleTypeInfo([ay, [CLASS_BYTE]], [ArrayInfo(1, 0, 1), FixedAligned(1)], 1)))
  {
    var y: bytes := [CLASS_BYTE];
    var ay: bytes := [CLASS_ARRAY, CLASS_BYTE];
    var s: bytes := [CLASS_TUPLE, CLASS_ARRAY, CLASS_BYTE, CLASS_BYTE, TUPLE_END];
    EmptyFirstMembers();
    var r1 := s[1..];
    assert r1 == [CLASS_ARRAY, CLASS_BYTE, CLASS_BYTE, TUPLE_END];
    assert Scan(r1, 1, 0, false) == Some(2);
    assert StringLength(r1) == Some(2);
    assert [r1[1]] == y;
    assert Info(r1) == Some((ArrayInfo(1, 0, 1), 2));
    assert r1[..2] == ay;
    var r3 := s[3..];
    assert r3 == [CLASS_BYTE, TUPLE_END];
    assert StringLength(r3) == Some(1);
    assert Info(r3) == Some((FixedAligned(1), 1));
    assert r3[..1] == y;
    var l1 := Step(EmptyLayout(), ay, ArrayInfo(1, 0, 1));
    assert l1 == Layout(1, 0, [ay], [ArrayInfo(1, 0, 1)], 1);
    var l2 := Step(l1, y, FixedAligned(1));
    assert Pad(0, 1) + 1 == 1;
    assert l2 == Layout(1, 1, [ay, y], [ArrayInfo(1, 0, 1), FixedAligned(1)], 1);
    assert Members(s, 4, l2) == Some((l2, 4));
    assert Members(s, 3, l1) == Some((l2, 4));
    assert Members(s, 1, EmptyLayout()) == Some((l2, 4));
  }

  /** `(ayy)` built from an empty byte array and the byte 5: the data, the end of the array, and its info. */
  lemma EmptyFirstTupleLayout()
    ensures
      var ay: bytes := [CLASS_ARRAY, CLASS_BYTE];
      var s: bytes := [CLASS_TUPLE, CLASS_ARRAY, CLASS_BYTE, CLASS_BYTE, TUPLE_END];
      && TupleOf([Variant(ay, []), Variant([CLASS_BYTE], [5])]) == Some(Variant(s, [5, 0]))
      && TypeInfoOf(s) == Some(TupleInfo(1, 0, 2, TupleTypeInfo([ay, [CLASS_BYTE]], [ArrayInfo(1, 0, 1), FixedAligned(1)], 1)))
  {
    var y: bytes := [CLASS_BYTE];
    var ay: bytes := [CLASS_ARRAY, CLASS_BYTE];
    var s: bytes := [CLASS_TUPLE, CLASS_ARRAY, CLASS_BYTE, CLASS_BYTE, TUPLE_END];
    var a, b := Variant(ay, []), Variant(y, [5]);
    EmptyFirstMembers();
    EmptyFirstTupleInfo();
    assert Pad(0, 1) == 0 && Zeros(0) == [];
    assert [] + [0] == [0];
    assert [] + Zeros(Pad(0, 1) - 0) + a.data == [];
    assert [] + Zeros(Pad(0, 1) - 0) + b.data == [5];
    assert TupleLoop([a, b], 2, [CLASS_TUPLE] + ay + y, [5], [0]) == Some(([CLASS_TUPLE] + ay + y, [5], [0]));
    assert TupleLoop([a, b], 1, [CLASS_TUPLE] + ay, [], [0]) == Some(([CLASS_TUPLE] + ay + y, [5], [0]));
    assert TupleLoop([a, b], 0, [CLASS_TUPLE], [], []) == Some(([CLASS_TUPLE] + ay + y, [5], [0]));
    assert [CLASS_TUPLE] + ay + y + [TUPLE_END] == s;
    assert Reversed([0]) == [0] && OffsetSizeForN(1, 1) == 1;
    assert OffsetBytes([0], 1) == OffsetBytes([], 1) + LeBytes(0, 1) == [0];
    assert [5] + OffsetBytes(Reversed([0]), OffsetSizeForN(|[5]|, |Reversed([0])|)) == [5, 0];
  }

  /**
   * A tuple member read between offsets is cut to its end offset only when that end is not
   * 0: in `(ayy)` built from an empty byte array and the byte 5, the empty first member
   * ends at 0, and the code hands back all the data, offsets included, as the array. As
   * intended, it comes back empty. The second member comes back either way.
   */
  lemma EmptyFirstTupleMember()
    ensures
      var ay: bytes := [CLASS_ARRAY, CLASS_BYTE];
      var s: bytes := [CLASS_TUPLE, CLASS_ARRAY, CLASS_BYTE, CLASS_BYTE, TUPLE_END];
      && TupleOf([Variant(ay, []), Variant([CLASS_BYTE], [5])]) == Some(Variant(s, [5, 0]))
      && NChildren(Variant(s, [5, 0])) == Some(2)
      && ChildValue(Variant(s, [5, 0]), 0) == Some(Variant(ay, [5, 0]))
      && IntendedChildValue(Variant(s, [5, 0]), 0) == Some(Variant(ay, []))
      && ChildValue(Variant(s, [5, 0]), 1) == Some(Variant([CLASS_BYTE], [5]))
      && IntendedChildValue(Variant(s, [5, 0]), 1) == Some(Variant([CLASS_BYTE], [5]))
  {
    var y: bytes := [CLASS_BYTE];
    var ay: bytes := [CLASS_ARRAY, CLASS_BYTE];
    var s: bytes := [CLASS_TUPLE, CLASS_ARRAY, CLASS_BYTE, CLASS_BYTE, TUPLE_END];
    EmptyFirstTupleLayout();
    var t := TupleTypeInfo([ay, y], [ArrayInfo(1, 0, 1), FixedAligned(1)], 1);
    var d: bytes := [5, 0];
    assert TypeInfoOf(ay) == Some(ArrayInfo(1, 0, 1)) by {
      assert [ay[1]] == y;
      assert Info(y) == Some((FixedAligned(1), 1));
    }
    assert OffsetItemSize(2) == 1;
    assert d[1..2] == [0] && FromLe([0]) == 0;
    assert ReadUnalignedLe(d[1..2], 1) == Some(0);
    assert MemberSize(d, t, 1, 2, 0, 0, 0) == Some(0);
    assert MemberSize(d, t, 1, 2, 1, 0, 1) == Some(1);
    assert TupleWalk(d, t, 1, 2, 0, 0, 0, 0, ANY_TYPE) == Some(Walked(0, 0, ay, true));
    assert TupleWalk(d, t, 1, 2, 1, 1, 0, 1, ay) == Some(Walked(0, 1, y, true));
    assert TupleWalk(d, t, 1, 2, 1, 0, 0, 0, ANY_TYPE) == Some(Walked(0, 1, y, true));
    assert d[0..] == d && d[0..0] == [] && d[0..1] == [5];
  }
  /** `my` takes the fixed size 1 of its element `y`, though its Nothing is empty. */
  lemma MaybeOfByteInfo()
    ensures Info([CLASS_MAYBE, CLASS_BYTE]) == Some((MaybeInfo(1, 1), 2))
    ensures TypeInfoOf([CLASS_MAYBE, CLASS_BYTE]) == Some(MaybeInfo(1, 1))
  {
    var my: bytes := [CLASS_MAYBE, CLASS_BYTE];
    assert my[1..] == [CLASS_BYTE];
    assert Info([CLASS_BYTE]) == Some((FixedAligned(1), 1));
  }

  /** The info of `(mys)`: `my` counts as fixed-size, so only `s` is variable-size. */
  lemma NothingMemberTupleInfo()
    ensures
      var my: bytes := [CLASS_MAYBE, CLASS_BYTE];
      var s: bytes := [CLASS_TUPLE, CLASS_MAYBE, CLASS_BYTE, CLASS_STRING, TUPLE_END];
      TypeInfoOf(s) == Some(TupleInfo(1, 0, 2, TupleTypeInfo([my, [CLASS_STRING]], [MaybeInfo(1, 1), Unaligned()], 1)))
  {
    var my: bytes := [CLASS_MAYBE, CLASS_BYTE];
    var str: bytes := [CLASS_STRING];
    var s: bytes := [CLASS_TUPLE, CLASS_MAYBE, CLASS_BYTE, CLASS_STRING, TUPLE_END];
    var r1 := s[1..];
    assert r1 == [CLASS_MAYBE, CLASS_BYTE, CLASS_STRING, TUPLE_END];
    assert r1[1..] == [CLASS_BYTE, CLASS_STRING, TUPLE_END];
    assert Scan(r1, 1, 0, false) == Some(2);
    assert StringLength(r1) == Some(2);
    assert Info(r1[1..]) == Some((FixedAligned(1), 1));
    assert Info(r1) == Some((MaybeInfo(1, 1), 2));
    assert r1[..2] == my;
    var r3 := s[3..];
    assert r3 == [CLASS_STRING, TUPLE_END];
    assert StringLength(r3) == Some(1);
    assert Info(r3) == Some((Unaligned(), 1));
    assert r3[..1] == str;
    var l1 := Step(EmptyLayout(), my, MaybeInfo(1, 1));
    assert Pad(0, 1) + 1 == 1;
    assert l1 == Layout(1, 1, [my], [MaybeInfo(1, 1)], 0);
    var l2 := Step(l1, str, Unaligned());
    assert Pad(1, 1) + 0 == 1;
    assert l2 == Layout(1, 1, [my, str], [MaybeInfo(1, 1), Unaligned()], 1);
    assert Members(s, 4, l2) == Some((l2, 4));
    assert Members(s, 3, l1) == Some((l2, 4));
    assert Members(s, 1, EmptyLayout()) == Some((l2, 4));
  }

  /** `(mys)` built from a Nothing and the string "hi": no offset is recorded for the Nothing. */
  lemma NothingMemberLayout()
    ensures
      var my: bytes := [CLASS_MAYBE, CLASS_BYTE];
      var s: bytes := [CLASS_TUPLE, CLASS_MAYBE, CLASS_BYTE, CLASS_STRING, TUPLE_END];
      TupleOf([Variant(my, []), Variant([CLASS_STRING], [104, 105, 0])]) == Some(Variant(s, [104, 105, 0]))
  {
    var my: bytes := [CLASS_MAYBE, CLASS_BYTE];
    var str: bytes := [CLASS_STRING];
    var s: bytes := [CLASS_TUPLE, CLASS_MAYBE, CLASS_BYTE, CLASS_STRING, TUPLE_END];
    var a, b := Variant(my, []), Variant(str, [104, 105, 0]);
    MaybeOfByteInfo();
    NothingMemberTupleInfo();
    assert TypeInfoOf(str) == Some(Unaligned());
    assert Pad(0, 1) == 0 && Zeros(0) == [];
    assert [] + Zeros(Pad(0, 1) - 0) + a.data == [];
    assert [] + Zeros(Pad(0, 1) - 0) + b.data == [104, 105, 0];
    assert TupleLoop([a, b], 2, [CLASS_TUPLE] + my + str, [104, 105, 0], []) == Some(([CLASS_TUPLE] + my + str, [104, 105, 0], []));
    assert TupleLoop([a, b], 1, [CLASS_TUPLE] + my, [], []) == Some(([CLASS_TUPLE] + my + str, [104, 105, 0], []));
    assert TupleLoop([a, b], 0, [CLASS_TUPLE], [], []) == Some(([CLASS_TUPLE] + my + str, [104, 105, 0], []));
    assert [CLASS_TUPLE] + my + str + [TUPLE_END] == s;
    assert Reversed([]) == [] && OffsetBytes([], OffsetSizeForN(3, 0)) == [];
    assert [104, 105, 0] + OffsetBytes(Reversed([]), OffsetSizeForN(|[104, 105, 0]|, |Reversed([])|)) == [104, 105, 0];
  }

  /**
   * The maybe arm of the type info takes its element's fixed size: in `(mys)` built from a
   * Nothing and the string "hi", the Nothing records no offset, and the reader, taking `my`
   * to be one byte, hands back a Just 'h' as member 0 and "i" as member 1, as written and as
   * intended alike.
   */
  lemma NothingMemberMisread()
    ensures
      var my: bytes := [CLASS_MAYBE, CLASS_BYTE];
      var str: bytes := [CLASS_STRING];
      var s: bytes := [CLASS_TUPLE, CLASS_MAYBE, CLASS_BYTE, CLASS_STRING, TUPLE_END];
      && TypeInfoOf(my) == Some(MaybeInfo(1, 1))
      && TupleOf([Variant(my, []), Variant(str, [104, 105, 0])]) == Some(Variant(s, [104, 105, 0]))
      && ChildValue(Variant(s, [104, 105, 0]), 0) == Some(Variant(my, [104]))
      && IntendedChildValue(Variant(s, [104, 105, 0]), 0) == Some(Variant(my, [104]))
      && ChildValue(Variant(s, [104, 105, 0]), 1) == Some(Variant(str, [105, 0]))
  {
    var my: bytes := [CLASS_MAYBE, CLASS_BYTE];
    var str: bytes := [CLASS_STRING];
    var s: bytes := [CLASS_TUPLE, CLASS_MAYBE, CLASS_BYTE, CLASS_STRING, TUPLE_END];
    MaybeOfByteInfo();
    NothingMemberLayout();
    NothingMemberTupleInfo();
    assert TypeInfoOf(str) == Some(Unaligned());
    var t := TupleTypeInfo([my, str], [MaybeInfo(1, 1), Unaligned()], 1);
    var d: bytes := [104, 105, 0];
    assert OffsetItemSize(3) == 1;
    assert MemberSize(d, t, 1, 3, 0, 0, 0) == Some(1);
    assert MemberSize(d, t, 1, 3, 1, 1, 0) == Some(2);
    assert TupleWalk(d, t, 1, 3, 0, 0, 0, 0, ANY_TYPE) == Some(Walked(0, 1, my, true));
    assert TupleWalk(d, t, 1, 3, 1, 1, 1, 0, my) == Some(Walked(1, 3, str, true));
    assert TupleWalk(d, t, 1, 3, 1, 0, 0, 0, ANY_TYPE) == Some(Walked(1, 3, str, true));
    assert d[0..1] == [104] && d[1..3] == [105, 0];
  }
}
