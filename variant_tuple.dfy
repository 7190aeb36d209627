/**
 * The tuple round trip of `tuple_from_iter` and `try_child_value` (src/no_glib/variant.rs):
 * a tuple built from members whose types the code's `type_info` handles as intended gives
 * back every member, with its type and data.
 *
 * The writer's layout is described by `Laid` (the members' data, each padded with zeros to
 * its alignment) and `LaidOffsets` (the end of every variable-size member but the last).
 * The reader's member walk is shown to reach each member where the writer put it: a
 * fixed-size member measures as its fixed size, the last member runs up to the offsets, and
 * any other variable-size member ends at the offset it finds counting from the back, which
 * is where the writer, storing the offsets reversed, put that member's end.
 */
module VariantTuple {
  import opened Wrappers
  import opened GvdbUtil
  import opened VariantType
  import opened VariantTypeInfo
  import opened VariantValue

  /** The type string of each child, in order. */
  function Types(children: seq<Variant>): (r: seq<bytes>)
    ensures |r| == |children|
    ensures forall i | 0 <= i < |children| :: r[i] == children[i].typ
  {
    seq(|children|, i requires 0 <= i < |children| => children[i].typ)
  }

  // ---------------------------------------------------------------------------------------
  // The writer's layout
  // ---------------------------------------------------------------------------------------

  /** The data of members with infos `infos` and data `ds`, each padded with zeros to its alignment. */
  function Laid(infos: seq<TypeInfo>, ds: seq<bytes>): bytes
    requires |infos| == |ds| && AllAligned(infos)
    decreases |ds|
  {
    if ds == [] then []
    else
      var k := |ds| - 1;
      var d := Laid(infos[..k], ds[..k]);
      PadRoundsUp(|d|, infos[k].alignment);
      d + Zeros(Pad(|d|, infos[k].alignment) - |d|) + ds[k]
  }

  /** Where the members before member k end. */
  function EndBefore(infos: seq<TypeInfo>, ds: seq<bytes>, k: nat): nat
    requires |infos| == |ds| && AllAligned(infos) && k <= |ds|
  {
    |Laid(infos[..k], ds[..k])|
  }

  /** Where member k starts: the end of the members before it, padded to its alignment. */
  function MemberStart(infos: seq<TypeInfo>, ds: seq<bytes>, k: nat): nat
    requires |infos| == |ds| && AllAligned(infos) && k < |ds|
  {
    Pad(EndBefore(infos, ds, k), infos[k].alignment)
  }

  /**
   * The end offsets recorded for the first |ds| of n members: the end of each variable-size
   * member that is not the last of all n.
   */
  function LaidOffsets(infos: seq<TypeInfo>, ds: seq<bytes>, n: nat): seq<nat>
    requires |infos| == |ds| && AllAligned(infos)
    decreases |ds|
  {
    if ds == [] then []
    else
      var k := |ds| - 1;
      LaidOffsets(infos[..k], ds[..k], n) + if infos[k].fixedSize == 0 && k + 1 < n then [|Laid(infos, ds)|] else []
  }

  /** The bytes of a non-empty tuple: the laid-out members, then the offsets in reverse order. */
  function TupleData(infos: seq<TypeInfo>, ds: seq<bytes>): bytes
    requires |infos| == |ds| && AllAligned(infos)
  {
    var d := Laid(infos, ds);
    var offsets := Reversed(LaidOffsets(infos, ds, |ds|));
    d + OffsetBytes(offsets, OffsetSizeForN(|d|, |offsets|))
  }

  /** One member further: the end moves past member k, and the count of unsized members takes it in. */
  lemma WalkStep(infos: seq<TypeInfo>, ds: seq<bytes>, k: nat)
    requires |infos| == |ds| && AllAligned(infos) && k < |ds|
    ensures EndBefore(infos, ds, k + 1) == MemberStart(infos, ds, k) + |ds[k]|
    ensures CountUnsized(infos[..k + 1]) == CountUnsized(infos[..k]) + if infos[k].fixedSize == 0 then 1 else 0
  {
    LaidStep(infos, ds, k);
    assert infos[..k + 1][..k] == infos[..k];
  }

  /** One more member: padding up to its start, then its data. */
  lemma LaidStep(infos: seq<TypeInfo>, ds: seq<bytes>, k: nat)
    requires |infos| == |ds| && AllAligned(infos) && k < |ds|
    ensures EndBefore(infos, ds, k) <= MemberStart(infos, ds, k)
    ensures Laid(infos[..k + 1], ds[..k + 1])
      == Laid(infos[..k], ds[..k]) + Zeros(MemberStart(infos, ds, k) - EndBefore(infos, ds, k)) + ds[k]
    ensures EndBefore(infos, ds, k + 1) == MemberStart(infos, ds, k) + |ds[k]|
  {
    PadRoundsUp(EndBefore(infos, ds, k), infos[k].alignment);
    assert infos[..k + 1][..k] == infos[..k] && ds[..k + 1][..k] == ds[..k];
  }

  /** The data of the first j members is a prefix of the data of them all. */
  lemma {:induction false} LaidPrefix(infos: seq<TypeInfo>, ds: seq<bytes>, j: nat)
    requires |infos| == |ds| && AllAligned(infos) && j <= |ds|
    ensures Laid(infos[..j], ds[..j]) <= Laid(infos, ds)
    decreases |ds|
  {
    if j < |ds| {
      var k := |ds| - 1;
      LaidPrefix(infos[..k], ds[..k], j);
      assert infos[..k][..j] == infos[..j] && ds[..k][..j] == ds[..j];
    } else {
      assert infos[..j] == infos && ds[..j] == ds;
    }
  }

  /** Member k lies in the laid-out data from its start, as it was given. */
  lemma MemberLaid(infos: seq<TypeInfo>, ds: seq<bytes>, k: nat)
    requires |infos| == |ds| && AllAligned(infos) && k < |ds|
    ensures MemberStart(infos, ds, k) + |ds[k]| <= |Laid(infos, ds)|
    ensures Laid(infos, ds)[MemberStart(infos, ds, k)..MemberStart(infos, ds, k) + |ds[k]|] == ds[k]
  {
    LaidStep(infos, ds, k);
    LaidPrefix(infos, ds, k + 1);
    var p := Laid(infos[..k + 1], ds[..k + 1]);
    var s := MemberStart(infos, ds, k);
    assert p[s..s + |ds[k]|] == ds[k];
  }

  /** Each member ends after the first one does. */
  lemma EndsAfterFirst(infos: seq<TypeInfo>, ds: seq<bytes>, k: nat)
    requires |infos| == |ds| && AllAligned(infos) && k < |ds|
    ensures |ds[0]| <= MemberStart(infos, ds, k) + |ds[k]|
  {
    LaidStep(infos, ds, 0);
    assert EndBefore(infos, ds, 0) == 0 by { assert infos[..0] == [] && ds[..0] == []; }
    LaidStep(infos, ds, k);
    if k > 0 {
      LaidPrefix(infos[..k], ds[..k], 1);
      assert infos[..k][..1] == infos[..1] && ds[..k][..1] == ds[..1];
    }
  }

  // ---------------------------------------------------------------------------------------
  // The recorded offsets
  // ---------------------------------------------------------------------------------------

  /** Before the last member, one offset is recorded per variable-size member. */
  lemma {:induction false} OffsetsCounted(infos: seq<TypeInfo>, ds: seq<bytes>, j: nat)
    requires |infos| == |ds| && AllAligned(infos) && j < |ds|
    ensures |LaidOffsets(infos[..j], ds[..j], |ds|)| == CountUnsized(infos[..j])
  {
    if j == 0 {
      assert infos[..j] == [] && ds[..j] == [];
    } else {
      OffsetsCounted(infos, ds, j - 1);
      assert infos[..j][..j - 1] == infos[..j - 1] && ds[..j][..j - 1] == ds[..j - 1];
      OffsetsGrow(infos[..j], ds[..j], |ds|, j - 1);
    }
  }

  /** The last of the members records one offset or none. */
  lemma OffsetsGrow(infos: seq<TypeInfo>, ds: seq<bytes>, n: nat, k: nat)
    requires |infos| == |ds| && AllAligned(infos) && k + 1 == |ds|
    ensures |LaidOffsets(infos, ds, n)|
      == |LaidOffsets(infos[..k], ds[..k], n)| + if infos[k].fixedSize == 0 && k + 1 < n then 1 else 0
  {
  }

  /** The offsets recorded for the first j members are a prefix of all of them. */
  lemma {:induction false} OffsetsPrefix(infos: seq<TypeInfo>, ds: seq<bytes>, n: nat, j: nat)
    requires |infos| == |ds| && AllAligned(infos) && j <= |ds|
    ensures LaidOffsets(infos[..j], ds[..j], n) <= LaidOffsets(infos, ds, n)
    decreases |ds|
  {
    if j < |ds| {
      var k := |ds| - 1;
      OffsetsPrefix(infos[..k], ds[..k], n, j);
      assert infos[..k][..j] == infos[..j] && ds[..k][..j] == ds[..j];
    } else {
      assert infos[..j] == infos && ds[..j] == ds;
    }
  }

  /**
   * A variable-size member other than the last records its end, after one offset for each
   * variable-size member before it.
   */
  lemma OffsetEntry(infos: seq<TypeInfo>, ds: seq<bytes>, k: nat)
    requires |infos| == |ds| && AllAligned(infos) && k + 1 < |ds| && infos[k].fixedSize == 0
    ensures CountUnsized(infos[..k]) < |LaidOffsets(infos, ds, |ds|)|
    ensures LaidOffsets(infos, ds, |ds|)[CountUnsized(infos[..k])] == EndBefore(infos, ds, k + 1)
  {
    OffsetsCounted(infos, ds, k);
    OffsetsPrefix(infos, ds, |ds|, k + 1);
    assert infos[..k + 1][..k] == infos[..k] && ds[..k + 1][..k] == ds[..k];
  }

  /** All offsets together: one per variable-size member, less one when the last member is one. */
  lemma OffsetsTotal(infos: seq<TypeInfo>, ds: seq<bytes>)
    requires |infos| == |ds| > 0 && AllAligned(infos)
    ensures |LaidOffsets(infos, ds, |ds|)| + (if infos[|ds| - 1].fixedSize == 0 then 1 else 0) == CountUnsized(infos)
  {
    OffsetsCounted(infos, ds, |ds| - 1);
  }

  // ---------------------------------------------------------------------------------------
  // The writer's loop lays the members out
  // ---------------------------------------------------------------------------------------

  /** The loop of `tuple_from_iter` from child k on finishes the layout begun by the first k. */
  lemma {:induction false} LoopLays(children: seq<Variant>, infos: seq<TypeInfo>, k: nat, types: bytes)
    requires |infos| == |children| && AllAligned(infos) && k <= |children|
    requires forall j | 0 <= j < |children| :: TypeInfoOf(children[j].typ) == Some(infos[j])
    ensures var ds := Datas(children);
      TupleLoop(children, k, types, Laid(infos[..k], ds[..k]), LaidOffsets(infos[..k], ds[..k], |ds|))
      == Some((types + Concat(Types(children)[k..]), Laid(infos, ds), LaidOffsets(infos, ds, |ds|)))
    decreases |children| - k
  {
    var ds := Datas(children);
    if k == |children| {
      assert infos[..k] == infos && ds[..k] == ds && Types(children)[k..] == [];
      assert types + Concat(Types(children)[k..]) == types;
    } else {
      var data := Laid(infos[..k], ds[..k]);
      var offsets := LaidOffsets(infos[..k], ds[..k], |ds|);
      var data' := Laid(infos[..k + 1], ds[..k + 1]);
      var offsets' := LaidOffsets(infos[..k + 1], ds[..k + 1], |ds|);
      LoopStep(children, infos, k, types, data, offsets, data', offsets');
      LoopLays(children, infos, k + 1, types + children[k].typ);
      TypesFrom(children, k, types);
    }
  }

  /** One turn of the loop of `tuple_from_iter`: child k is padded and appended, and its end recorded when due. */
  lemma LoopStep(children: seq<Variant>, infos: seq<TypeInfo>, k: nat, types: bytes, data: bytes, offsets: seq<nat>,
                 data': bytes, offsets': seq<nat>)
    requires |infos| == |children| && AllAligned(infos) && k < |children|
    requires TypeInfoOf(children[k].typ) == Some(infos[k])
    requires data == Laid(infos[..k], Datas(children)[..k]) && offsets == LaidOffsets(infos[..k], Datas(children)[..k], |children|)
    requires data' == Laid(infos[..k + 1], Datas(children)[..k + 1])
    requires offsets' == LaidOffsets(infos[..k + 1], Datas(children)[..k + 1], |children|)
    ensures TupleLoop(children, k, types, data, offsets) == TupleLoop(children, k + 1, types + children[k].typ, data', offsets')
  {
    var ds := Datas(children);
    LaidStep(infos, ds, k);
    assert infos[..k + 1][..k] == infos[..k] && ds[..k + 1][..k] == ds[..k];
    assert data' == data + Zeros(Pad(|data|, infos[k].alignment) - |data|) + children[k].data;
    assert offsets' == offsets + if infos[k].fixedSize == 0 && k + 1 < |children| then [|data'|] else [];
    assert offsets' == if infos[k].fixedSize == 0 && k + 1 < |children| then offsets + [|data'|] else offsets;
  }

  /** The type strings from child k on are child k's followed by the rest. */
  lemma TypesFrom(children: seq<Variant>, k: nat, types: bytes)
    requires k < |children|
    ensures types + children[k].typ + Concat(Types(children)[k + 1..]) == types + Concat(Types(children)[k..])
  {
    var tys := Types(children)[k..];
    assert tys[0] == children[k].typ && tys[1..] == Types(children)[k + 1..];
  }

  /** Members whose info the code computes as intended have their own infos, in order. */
  lemma MemberInfos(ms: seq<Type>, children: seq<Variant>)
    requires ms != [] && |children| == |ms|
    requires forall k | 0 <= k < |ms| :: Plain(ms[k]) && children[k].typ == Print(ms[k])
    ensures AllAligned(Infos(ms))
    ensures forall j | 0 <= j < |children| :: TypeInfoOf(children[j].typ) == Some(Infos(ms)[j])
    ensures Types(children) == PrintEach(ms)
  {
    MaxAlignmentOfAlignments(Infos(ms));
    forall j | 0 <= j < |children| ensures TypeInfoOf(children[j].typ) == Some(Infos(ms)[j]) {
      InfosAt(ms, j);
      PlainMember(ms[j]);
    }
    forall j | 0 <= j < |children| ensures Types(children)[j] == PrintEach(ms)[j] {
      InfosAt(ms, j);
    }
  }

  /** The type string of a member whose info the code computes as intended has that info. */
  lemma PlainMember(t: Type)
    requires Plain(t)
    ensures TypeInfoOf(Print(t)) == Some(IntendedTypeInfo(t))
  {
    assert Print(t) + [] == Print(t);
    PlainTypeInfo(t, []);
  }

  /** The type string of a tuple of such members has the info the code gives it. */
  lemma TupleTypeOf(ms: seq<Type>)
    requires ms != [] && forall k | 0 <= k < |ms| :: Plain(ms[k])
    ensures TypeInfoOf(Print(Tuple(ms))) == Some(WrittenTupleInfo(ms))
    ensures [CLASS_TUPLE] + Concat(PrintEach(ms)) + [TUPLE_END] == Print(Tuple(ms))
  {
    assert Print(Tuple(ms)) + [] == Print(Tuple(ms));
    PlainTupleTypeInfo(ms, []);
    ConcatPrintEach(ms);
  }

  /** `tuple_from_iter` writes the laid-out data followed by the reversed offsets. */
  lemma TupleWritten(children: seq<Variant>, infos: seq<TypeInfo>)
    requires children != [] && |infos| == |children| && AllAligned(infos)
    requires forall j | 0 <= j < |children| :: TypeInfoOf(children[j].typ) == Some(infos[j])
    requires TypeInfoOf([CLASS_TUPLE] + Concat(Types(children)) + [TUPLE_END]).Some?
    ensures TupleOf(children) == Some(Variant([CLASS_TUPLE] + Concat(Types(children)) + [TUPLE_END],
                                              TupleData(infos, Datas(children))))
  {
    var ds := Datas(children);
    assert infos[..0] == [] && ds[..0] == [] && Types(children)[0..] == Types(children);
    LoopLays(children, infos, 0, [CLASS_TUPLE]);
  }

  /**
   * A tuple of members whose info the code computes as intended: the members' infos are
   * their own, the tuple's info is the intended one, and `tuple_from_iter` writes the
   * tuple's type string and the laid-out data with the offsets after it.
   */
  lemma TupleShape(ms: seq<Type>, children: seq<Variant>)
    requires ms != [] && |children| == |ms|
    requires forall k | 0 <= k < |ms| :: Plain(ms[k]) && children[k].typ == Print(ms[k])
    ensures AllAligned(Infos(ms))
    ensures forall j | 0 <= j < |children| :: TypeInfoOf(children[j].typ) == Some(Infos(ms)[j])
    ensures TypeInfoOf(Print(Tuple(ms))) == Some(WrittenTupleInfo(ms))
    ensures TupleOf(children) == Some(Variant(Print(Tuple(ms)), TupleData(Infos(ms), Datas(children))))
  {
    MemberInfos(ms, children);
    TupleTypeOf(ms);
    TupleWritten(children, Infos(ms));
  }

  // ---------------------------------------------------------------------------------------
  // The reader's walk finds the members
  // ---------------------------------------------------------------------------------------

  /**
   * The reader's member walk from member idx on stops at member `index`, where the writer
   * put it, when every member up to it measures as its data.
   */
  lemma {:induction false} WalkReaches(data: bytes, t: TupleTypeInfo, ds: seq<bytes>, w: nat, offsetsStart: nat,
                                        index: nat, idx: nat, typ: bytes)
    requires |t.memberInfo| == |ds| == |t.memberTypes| && AllAligned(t.memberInfo) && idx <= index < |ds|
    requires forall k {:trigger MemberStart(t.memberInfo, ds, k)} | idx <= k <= index ::
      MemberSize(data, t, w, offsetsStart, k, MemberStart(t.memberInfo, ds, k), CountUnsized(t.memberInfo[..k]))
      == Some(|ds[k]|)
    ensures TupleWalk(data, t, w, offsetsStart, index, idx, EndBefore(t.memberInfo, ds, idx),
                      CountUnsized(t.memberInfo[..idx]), typ)
      == Some(Walked(MemberStart(t.memberInfo, ds, index), MemberStart(t.memberInfo, ds, index) + |ds[index]|,
                     t.memberTypes[index], true))
    decreases index - idx
  {
    var start := MemberStart(t.memberInfo, ds, idx);
    WalkStep(t.memberInfo, ds, idx);
    WalkOneStep(data, t, w, offsetsStart, index, idx, EndBefore(t.memberInfo, ds, idx),
                CountUnsized(t.memberInfo[..idx]), typ, start, |ds[idx]|);
    if idx < index {
      WalkReaches(data, t, ds, w, offsetsStart, index, idx + 1, t.memberTypes[idx]);
    }
  }

  /** One turn of the reader's member walk: member idx, padded and measured, is the one sought or is stepped over. */
  lemma WalkOneStep(data: bytes, t: TupleTypeInfo, w: nat, offsetsStart: nat, index: nat, idx: nat,
                    offset: nat, n: nat, typ: bytes, start: nat, size: nat)
    requires idx < |t.memberInfo| && idx < |t.memberTypes| && t.memberInfo[idx].alignment > 0
    requires start == Pad(offset, t.memberInfo[idx].alignment)
    requires MemberSize(data, t, w, offsetsStart, idx, start, n) == Some(size)
    ensures TupleWalk(data, t, w, offsetsStart, index, idx, offset, n, typ)
      == if index == idx then Some(Walked(start, start + size, t.memberTypes[idx], true))
         else TupleWalk(data, t, w, offsetsStart, index, idx + 1, start + size,
                        if t.memberInfo[idx].fixedSize == 0 then n + 1 else n, t.memberTypes[idx])
  {
  }

  /** `(a + b) * s` splits over the sum. */
  lemma MulAdd(a: nat, b: nat, s: nat)
    ensures (a + b) * s == a * s + b * s
  {
  }

  /** The width the writer picks for the offsets, where there are any. */
  predicate WriterWidth(infos: seq<TypeInfo>, ds: seq<bytes>, w: nat)
    requires |infos| == |ds| && AllAligned(infos)
  {
    |LaidOffsets(infos, ds, |ds|)| > 0 ==> w == OffsetSizeForN(|Laid(infos, ds)|, |LaidOffsets(infos, ds, |ds|)|)
  }

  /** The reader derives the writer's width from the length of the tuple data. */
  lemma ReaderWidth(infos: seq<TypeInfo>, ds: seq<bytes>)
    requires |infos| == |ds| && AllAligned(infos)
    ensures WriterWidth(infos, ds, OffsetItemSize(|TupleData(infos, ds)|))
  {
    var d := Laid(infos, ds);
    var os := LaidOffsets(infos, ds, |ds|);
    if |os| > 0 {
      assert |TupleData(infos, ds)| == |d| + |os| * OffsetSizeForN(|d|, |os|);
      OffsetSizesAgree(|d|, |os|);
    }
  }

  /**
   * A variable-size member other than the last ends at the offset the reader finds after
   * counting back past one offset per variable-size member before it.
   */
  lemma OffsetRead(infos: seq<TypeInfo>, ds: seq<bytes>, k: nat, w: nat, x: bytes, c: nat)
    requires |infos| == |ds| && AllAligned(infos) && k + 1 < |ds| && infos[k].fixedSize == 0
    requires |Laid(infos, ds)| < USIZE_LIMIT && WriterWidth(infos, ds, w)
    requires x == TupleData(infos, ds) && c == CountUnsized(infos[..k])
    ensures w * (c + 1) <= |x| && |x| - w * (c + 1) + w <= |x|
    ensures ReadUnalignedLe(x[|x| - w * (c + 1)..|x| - w * (c + 1) + w], w) == Some(EndBefore(infos, ds, k + 1))
  {
    OffsetEntry(infos, ds, k);
    LaidPrefix(infos, ds, k + 1);
    WidthHolds(|Laid(infos, ds)|, |LaidOffsets(infos, ds, |ds|)|);
    ReadBack(Laid(infos, ds), LaidOffsets(infos, ds, |ds|), c, EndBefore(infos, ds, k + 1), x, w);
  }

  /** Offset c of those stored reversed after data d in the writer's width s is found c + 1 slots before the end. */
  lemma ReadBack(d: bytes, os: seq<nat>, c: nat, e: nat, x: bytes, s: nat)
    requires c < |os| && os[c] == e && e <= |d| < Pow256(s) && IsAlignment(s)
    requires x == d + OffsetBytes(Reversed(os), s)
    ensures s * (c + 1) <= |x| && |x| - s * (c + 1) + s <= |x|
    ensures ReadUnalignedLe(x[|x| - s * (c + 1)..|x| - s * (c + 1) + s], s) == Some(e)
  {
    ReversedAt(os, c);
    ImageAtBack(d, Reversed(os), s, c);
    ReadAtBack(x, s, c, e);
  }

  /** Entry c of a sequence is entry |os| - 1 - c of its reversal. */
  lemma ReversedAt(os: seq<nat>, c: nat)
    requires c < |os|
    ensures |Reversed(os)| == |os| && Reversed(os)[|os| - 1 - c] == os[c]
  {
  }

  /** Offset c from the back of those written after d in width s sits c + 1 slots before the end. */
  lemma ImageAtBack(d: bytes, ro: seq<nat>, s: nat, c: nat)
    requires IsAlignment(s) && c < |ro|
    ensures var x := d + OffsetBytes(ro, s);
      && s * (c + 1) <= |x| && |x| - s * (c + 1) + s <= |x|
      && x[|x| - s * (c + 1)..|x| - s * (c + 1) + s] == LeBytes(ro[|ro| - 1 - c], s)
  {
    var x := d + OffsetBytes(ro, s);
    OffsetImageAt(d, ro, s, |ro| - 1 - c);
    BackSlot(|x|, |d|, |ro|, s, c);
  }

  /** The image of e, c + 1 slots of width s before the end, reads back as e. */
  lemma ReadAtBack(x: bytes, s: nat, c: nat, e: nat)
    requires IsAlignment(s) && e < Pow256(s)
    requires s * (c + 1) <= |x| && |x| - s * (c + 1) + s <= |x|
    requires x[|x| - s * (c + 1)..|x| - s * (c + 1) + s] == LeBytes(e, s)
    ensures ReadUnalignedLe(x[|x| - s * (c + 1)..|x| - s * (c + 1) + s], s) == Some(e)
  {
    ReadImage(x, |x| - s * (c + 1), s, e);
  }

  /** Counting back c + 1 slots of width s from the end of n slots after dlen bytes lands on slot n - 1 - c. */
  lemma BackSlot(xlen: nat, dlen: nat, n: nat, s: nat, c: nat)
    requires c < n && xlen == dlen + n * s
    ensures s * (c + 1) <= xlen && xlen - s * (c + 1) + s <= xlen
    ensures xlen - s * (c + 1) == dlen + (n - 1 - c) * s
  {
    MulAdd(n - 1 - c, c + 1, s);
  }

  /**
   * Where the reader takes the offsets to start: one offset of the width w per variable-size
   * member but the last before the end, or the end for none; for a last member of variable
   * size, where the laid-out members end.
   */
  lemma ReaderStart(infos: seq<TypeInfo>, ds: seq<bytes>, w: nat, x: bytes) returns (offsetsStart: nat)
    requires |infos| == |ds| > 0 && AllAligned(infos) && WriterWidth(infos, ds, w) && x == TupleData(infos, ds)
    ensures CountUnsized(infos) == 0 ==> offsetsStart == |x|
    ensures CountUnsized(infos) > 0 ==>
      w * (CountUnsized(infos) - 1) <= |x| && offsetsStart == |x| - w * (CountUnsized(infos) - 1)
    ensures infos[|ds| - 1].fixedSize == 0 ==> offsetsStart == |Laid(infos, ds)|
  {
    var d := Laid(infos, ds);
    var os := LaidOffsets(infos, ds, |ds|);
    var s := OffsetSizeForN(|d|, |os|);
    var nU := CountUnsized(infos);
    OffsetsTotal(infos, ds);
    assert |x| == |d| + |os| * s;
    if nU > 0 {
      StartArith(|d|, |os|, s, w, nU - 1);
      offsetsStart := |x| - w * (nU - 1);
    } else {
      offsetsStart := |x|;
    }
  }

  /** m <= n offsets of the width w the reader derives fit in the data, all n exactly after dlen bytes. */
  lemma StartArith(dlen: nat, n: nat, s: nat, w: nat, m: nat)
    requires m <= n && (n > 0 ==> w == s)
    ensures w * m <= dlen + n * s
    ensures m == n ==> dlen + n * s - w * m == dlen
  {
    if n > 0 {
      MulAdd(m, n - m, s);
    }
  }

  /** Every member up to the last measures as its data. */
  lemma MemberMeasured(infos: seq<TypeInfo>, tys: seq<bytes>, ds: seq<bytes>, k: nat, offsetsStart: nat, w: nat)
    requires |infos| == |ds| == |tys| && AllAligned(infos) && k < |ds|
    requires infos[k].fixedSize == 0 || |ds[k]| == infos[k].fixedSize
    requires |Laid(infos, ds)| < USIZE_LIMIT && WriterWidth(infos, ds, w)
    requires infos[|ds| - 1].fixedSize == 0 ==> offsetsStart == |Laid(infos, ds)|
    ensures MemberSize(TupleData(infos, ds), TupleTypeInfo(tys, infos, CountUnsized(infos)), w, offsetsStart, k,
                       MemberStart(infos, ds, k), CountUnsized(infos[..k]))
      == Some(|ds[k]|)
  {
    var x := TupleData(infos, ds);
    var t := TupleTypeInfo(tys, infos, CountUnsized(infos));
    var start := MemberStart(infos, ds, k);
    var c := CountUnsized(infos[..k]);
    LaidStep(infos, ds, k);
    if infos[k].fixedSize == 0 {
      if k == |ds| - 1 {
        assert infos[..k + 1] == infos && ds[..k + 1] == ds;
        assert offsetsStart == start + |ds[k]|;
      } else {
        OffsetRead(infos, ds, k, w, x, c);
        MeasuredByOffset(x, t, w, offsetsStart, k, start, c, start + |ds[k]|);
      }
    }
  }

  /** A variable-size member other than the last measures up to the offset read for it. */
  lemma MeasuredByOffset(data: bytes, t: TupleTypeInfo, w: nat, offsetsStart: nat, idx: nat, start: nat,
                         c: nat, end: nat)
    requires idx + 1 < |t.memberInfo| && t.memberInfo[idx].fixedSize == 0 && start <= end
    requires w * (c + 1) <= |data| && |data| - w * (c + 1) + w <= |data|
    requires ReadUnalignedLe(data[|data| - w * (c + 1)..|data| - w * (c + 1) + w], w) == Some(end)
    ensures MemberSize(data, t, w, offsetsStart, idx, start, c) == Some(end - start)
  {
  }

  // ---------------------------------------------------------------------------------------
  // The round trip
  // ---------------------------------------------------------------------------------------

  /** The reader's walk over written tuple data x with member types t stops at member i, where the writer put it. */
  lemma {:induction false} TupleWalked(infos: seq<TypeInfo>, tys: seq<bytes>, ds: seq<bytes>, i: nat, offsetsStart: nat,
                                       w: nat, x: bytes, t: TupleTypeInfo)
    requires |infos| == |ds| == |tys| && AllAligned(infos) && i < |ds|
    requires forall k | 0 <= k < |ds| :: infos[k].fixedSize == 0 || |ds[k]| == infos[k].fixedSize
    requires |Laid(infos, ds)| < USIZE_LIMIT && WriterWidth(infos, ds, w)
    requires infos[|ds| - 1].fixedSize == 0 ==> offsetsStart == |Laid(infos, ds)|
    requires x == TupleData(infos, ds) && t == TupleTypeInfo(tys, infos, CountUnsized(infos))
    ensures TupleWalk(x, t, w, offsetsStart, i, 0, 0, 0, ANY_TYPE)
      == Some(Walked(MemberStart(infos, ds, i), MemberStart(infos, ds, i) + |ds[i]|, tys[i], true))
  {
    AllMeasured(infos, tys, ds, i, offsetsStart, w, x, t);
    NothingLaid(infos, ds);
    var s0, n0 := EndBefore(infos, ds, 0), CountUnsized(infos[..0]);
    WalkReaches(x, t, ds, w, offsetsStart, i, 0, ANY_TYPE);
    WalkFromStart(x, t, w, offsetsStart, i, s0, n0);
  }

  /** On written tuple data every member up to i measures as its data. */
  lemma AllMeasured(infos: seq<TypeInfo>, tys: seq<bytes>, ds: seq<bytes>, i: nat, offsetsStart: nat,
                    w: nat, x: bytes, t: TupleTypeInfo)
    requires |infos| == |ds| == |tys| && AllAligned(infos) && i < |ds|
    requires forall k | 0 <= k < |ds| :: infos[k].fixedSize == 0 || |ds[k]| == infos[k].fixedSize
    requires |Laid(infos, ds)| < USIZE_LIMIT && WriterWidth(infos, ds, w)
    requires infos[|ds| - 1].fixedSize == 0 ==> offsetsStart == |Laid(infos, ds)|
    requires x == TupleData(infos, ds) && t == TupleTypeInfo(tys, infos, CountUnsized(infos))
    ensures forall k {:trigger MemberStart(t.memberInfo, ds, k)} | 0 <= k <= i ::
      MemberSize(x, t, w, offsetsStart, k, MemberStart(t.memberInfo, ds, k), CountUnsized(t.memberInfo[..k]))
      == Some(|ds[k]|)
  {
    forall k {:trigger MemberStart(infos, ds, k)} | 0 <= k <= i
      ensures MemberSize(x, t, w, offsetsStart, k, MemberStart(infos, ds, k), CountUnsized(infos[..k])) == Some(|ds[k]|)
    {
      MemberMeasured(infos, tys, ds, k, offsetsStart, w);
    }
  }

  /** Before member 0 nothing is laid out and no variable-size member is counted. */
  lemma NothingLaid(infos: seq<TypeInfo>, ds: seq<bytes>)
    requires |infos| == |ds| && AllAligned(infos)
    ensures EndBefore(infos, ds, 0) == 0 && CountUnsized(infos[..0]) == 0
  {
    assert infos[..0] == [] && ds[..0] == [];
  }

  /** The walk from member 0 starts at offset 0 with no variable-size member seen. */
  lemma WalkFromStart(data: bytes, t: TupleTypeInfo, w: nat, offsetsStart: nat, index: nat, offset: nat, seen: nat)
    requires offset == 0 && seen == 0
    ensures TupleWalk(data, t, w, offsetsStart, index, 0, offset, seen, ANY_TYPE)
      == TupleWalk(data, t, w, offsetsStart, index, 0, 0, 0, ANY_TYPE)
  {
  }

  /** The tuple branch of `try_child_value` cuts out the member its walk finds. */
  /** What the reader needs to cut member index out of tuple data: where the offsets start, the walk's result, and the slice. */
  predicate CutAt(data: bytes, t: TupleTypeInfo, index: nat, intended: bool,
                  offsetsStart: nat, offset: nat, offsetEnd: nat, typ: bytes, member: bytes)
  {
    && (t.nUnsized == 0 ==> intended && offsetsStart == |data|)
    && (t.nUnsized > 0 ==>
         OffsetItemSize(|data|) * (t.nUnsized - 1) <= |data|
         && offsetsStart == |data| - OffsetItemSize(|data|) * (t.nUnsized - 1))
    && TupleWalk(data, t, OffsetItemSize(|data|), offsetsStart, index, 0, 0, 0, ANY_TYPE)
       == Some(Walked(offset, offsetEnd, typ, true))
    && (intended || offsetEnd != 0)
    && offset <= offsetEnd <= |data| && data[offset..offsetEnd] == member
  }

  lemma TupleChildCut(vt: bytes, data: bytes, info: TypeInfo, t: TupleTypeInfo, index: nat, intended: bool,
                      offsetsStart: nat, offset: nat, offsetEnd: nat, typ: bytes, member: bytes)
    requires info.tuple == Some(t)
    requires CutAt(data, t, index, intended, offsetsStart, offset, offsetEnd, typ, member)
    ensures TupleChild(Variant(vt, data), info, index, intended) == FromDataWithType(member, typ)
  {
  }

  lemma ChildOfLaid(infos: seq<TypeInfo>, tys: seq<bytes>, ds: seq<bytes>, typ: bytes, info: TypeInfo,
                    intended: bool, i: nat)
    requires |infos| == |ds| == |tys| && AllAligned(infos) && i < |ds|
    requires forall k | 0 <= k < |ds| :: infos[k].fixedSize == 0 || |ds[k]| == infos[k].fixedSize
    requires |Laid(infos, ds)| < USIZE_LIMIT
    requires info.tuple == Some(TupleTypeInfo(tys, infos, CountUnsized(infos)))
    requires intended || (CountUnsized(infos) > 0 && |ds[0]| > 0)
    ensures TupleChild(Variant(typ, TupleData(infos, ds)), info, i, intended) == FromDataWithType(ds[i], tys[i])
  {
    var offsetsStart, start := LaidCut(infos, tys, ds, intended, i);
    TupleChildCut(typ, TupleData(infos, ds), info, TupleTypeInfo(tys, infos, CountUnsized(infos)), i, intended,
                  offsetsStart, start, start + |ds[i]|, tys[i], ds[i]);
  }

  /** Member i of laid-out tuple data is what the reader cuts out of it. */
  lemma LaidCut(infos: seq<TypeInfo>, tys: seq<bytes>, ds: seq<bytes>, intended: bool, i: nat)
    returns (offsetsStart: nat, start: nat)
    requires |infos| == |ds| == |tys| && AllAligned(infos) && i < |ds|
    requires forall k | 0 <= k < |ds| :: infos[k].fixedSize == 0 || |ds[k]| == infos[k].fixedSize
    requires |Laid(infos, ds)| < USIZE_LIMIT
    requires intended || (CountUnsized(infos) > 0 && |ds[0]| > 0)
    ensures CutAt(TupleData(infos, ds), TupleTypeInfo(tys, infos, CountUnsized(infos)), i, intended,
                  offsetsStart, start, start + |ds[i]|, tys[i], ds[i])
  {
    var x := TupleData(infos, ds);
    var t := TupleTypeInfo(tys, infos, CountUnsized(infos));
    offsetsStart := ReaderFinds(infos, tys, ds, i, x, t);
    start := MemberStart(infos, ds, i);
    MemberInData(infos, ds, i, x);
    EndsAfterFirst(infos, ds, i);
  }

  /** The reader of tuple data x finds where the offsets start, and walks to member i. */
  lemma ReaderFinds(infos: seq<TypeInfo>, tys: seq<bytes>, ds: seq<bytes>, i: nat, x: bytes, t: TupleTypeInfo)
    returns (offsetsStart: nat)
    requires |infos| == |ds| == |tys| && AllAligned(infos) && i < |ds|
    requires forall k | 0 <= k < |ds| :: infos[k].fixedSize == 0 || |ds[k]| == infos[k].fixedSize
    requires |Laid(infos, ds)| < USIZE_LIMIT
    requires x == TupleData(infos, ds) && t == TupleTypeInfo(tys, infos, CountUnsized(infos))
    ensures t.nUnsized == 0 ==> offsetsStart == |x|
    ensures t.nUnsized > 0 ==>
      OffsetItemSize(|x|) * (t.nUnsized - 1) <= |x| && offsetsStart == |x| - OffsetItemSize(|x|) * (t.nUnsized - 1)
    ensures TupleWalk(x, t, OffsetItemSize(|x|), offsetsStart, i, 0, 0, 0, ANY_TYPE)
      == Some(Walked(MemberStart(infos, ds, i), MemberStart(infos, ds, i) + |ds[i]|, tys[i], true))
  {
    var w := OffsetItemSize(|x|);
    ReaderWidth(infos, ds);
    offsetsStart := ReaderStart(infos, ds, w, x);
    TupleWalked(infos, tys, ds, i, offsetsStart, w, x, t);
  }

  /** Member i sits in the tuple data where the layout put it. */
  lemma MemberInData(infos: seq<TypeInfo>, ds: seq<bytes>, i: nat, x: bytes)
    requires |infos| == |ds| && AllAligned(infos) && i < |ds| && x == TupleData(infos, ds)
    ensures MemberStart(infos, ds, i) + |ds[i]| <= |Laid(infos, ds)| <= |x|
    ensures x[MemberStart(infos, ds, i)..MemberStart(infos, ds, i) + |ds[i]|] == ds[i]
  {
    MemberLaid(infos, ds, i);
    LaidLeads(infos, ds);
    var start := MemberStart(infos, ds, i);
    SliceOfPrefix(Laid(infos, ds), x, start, start + |ds[i]|);
  }

  /** Tuple data begins with the laid-out members; the offset table follows. */
  lemma LaidLeads(infos: seq<TypeInfo>, ds: seq<bytes>)
    requires |infos| == |ds| && AllAligned(infos)
    ensures Laid(infos, ds) <= TupleData(infos, ds)
  {
    var d := Laid(infos, ds);
    assert TupleData(infos, ds)[..|d|] == d;
  }

  /** Member i of a written tuple comes back with its type and data. */
  lemma TupleChildAt(ms: seq<Type>, children: seq<Variant>, intended: bool, i: nat)
    requires ms != [] && |children| == |ms| && i < |children|
    requires forall k | 0 <= k < |ms| :: Plain(ms[k]) && children[k].typ == Print(ms[k])
    requires forall k | 0 <= k < |ms| ::
      IntendedTypeInfo(ms[k]).fixedSize == 0 || |children[k].data| == IntendedTypeInfo(ms[k]).fixedSize
    requires AllAligned(Infos(ms)) && |Laid(Infos(ms), Datas(children))| < USIZE_LIMIT
    requires intended || (CountUnsized(Infos(ms)) > 0 && |children[0].data| > 0)
    ensures TupleChild(Variant(Print(Tuple(ms)), TupleData(Infos(ms), Datas(children))), WrittenTupleInfo(ms), i, intended)
      == Some(children[i])
  {
    var infos := Infos(ms);
    var ds := Datas(children);
    TupleShape(ms, children);
    forall k | 0 <= k < |ds| ensures infos[k].fixedSize == 0 || |ds[k]| == infos[k].fixedSize {
      InfosAt(ms, k);
    }
    InfosAt(ms, i);
    ChildOfLaid(infos, PrintEach(ms), ds, Print(Tuple(ms)), WrittenTupleInfo(ms), intended, i);
  }

  /**
   * `tuple_from_iter` then `n_children` and `try_child_value`: a tuple built from members
   * whose type info the code computes as intended, each fixed-size member holding data of
   * its fixed size, has as many children as members, and child i is member i. As intended
   * this holds for every such tuple. As written it needs a variable-size member (otherwise
   * the offset count underflows) and a non-empty first member (otherwise an end offset of 0
   * is taken for no offset).
   */
  lemma TupleRoundTrip(ms: seq<Type>, children: seq<Variant>, intended: bool)
    requires ms != [] && |children| == |ms|
    requires forall k | 0 <= k < |ms| :: Plain(ms[k]) && children[k].typ == Print(ms[k])
    requires forall k | 0 <= k < |ms| ::
      IntendedTypeInfo(ms[k]).fixedSize == 0 || |children[k].data| == IntendedTypeInfo(ms[k]).fixedSize
    requires AllAligned(Infos(ms)) && |Laid(Infos(ms), Datas(children))| < USIZE_LIMIT
    requires intended || (CountUnsized(Infos(ms)) > 0 && |children[0].data| > 0)
    ensures TupleOf(children).Some? && TupleOf(children).value.typ == Print(Tuple(ms))
    ensures Children(TupleOf(children).value, intended) == Some(|children|)
    ensures forall i | 0 <= i < |children| :: ChildAt(TupleOf(children).value, i, intended) == Some(children[i])
  {
    TupleShape(ms, children);
    var v := TupleOf(children).value;
    var info := WrittenTupleInfo(ms);
    TupleDispatch(v, info, intended);
    forall i | 0 <= i < |children| ensures ChildAt(v, i, intended) == Some(children[i]) {
      TupleChildAt(ms, children, intended, i);
    }
  }

  /** On a tuple value, the reader counts the members its type info records and hands each index to the tuple walk. */
  lemma TupleDispatch(v: Variant, info: TypeInfo, intended: bool)
    requires |v.typ| > 0 && v.typ[0] == CLASS_TUPLE && TypeInfoOf(v.typ) == Some(info)
    ensures Children(v, intended) == Some(info.nMembers)
    ensures forall index | 0 <= index < info.nMembers :: ChildAt(v, index, intended) == TupleChild(v, info, index, intended)
  {
  }
  // ---------------------------------------------------------------------------------------
  // The tuple as intended
  // ---------------------------------------------------------------------------------------

  /**
   * The tuple writer as the format intends it: the members laid out with their intended
   * infos and the end offsets of the variable-size ones, as `tuple_from_iter` writes them,
   * then, for a tuple of fixed size, zeros up to the size padded to its alignment.
   */
  function IntendedTupleOf(ms: seq<Type>, children: seq<Variant>): (r: Variant)
    requires ms != [] && |children| == |ms|
    ensures r.typ == Print(Tuple(ms))
    ensures TupleData(Infos(ms), Datas(children)) <= r.data
    ensures CountUnsized(Infos(ms)) > 0 ==> r.data == TupleData(Infos(ms), Datas(children))
  {
    var infos := Infos(ms);
    MaxAlignmentOfAlignments(infos);
    var x := TupleData(infos, Datas(children));
    PadRoundsUp(|x|, MaxAlignment(infos));
    var tail := if CountUnsized(infos) > 0 then 0 else Pad(|x|, MaxAlignment(infos)) - |x|;
    Variant(Print(Tuple(ms)), x + Zeros(tail))
  }

  /** Members each as long as their fixed size end where the infos place the end of the last. */
  lemma {:induction false} LaidEnd(infos: seq<TypeInfo>, ds: seq<bytes>)
    requires |infos| == |ds| && AllAligned(infos)
    requires forall k | 0 <= k < |ds| :: |ds[k]| == infos[k].fixedSize
    ensures |Laid(infos, ds)| == End(infos)
    decreases |ds|
  {
    if ds != [] {
      LaidEnd(infos[..|ds| - 1], ds[..|ds| - 1]);
    }
  }

  /** A tuple of fixed size, written as intended, is exactly as long as its intended info says. */
  lemma IntendedTupleSize(ms: seq<Type>, children: seq<Variant>)
    requires ms != [] && |children| == |ms|
    requires forall k | 0 <= k < |ms| ::
      IntendedTypeInfo(ms[k]).fixedSize == 0 || |children[k].data| == IntendedTypeInfo(ms[k]).fixedSize
    requires CountUnsized(Infos(ms)) == 0
    ensures |IntendedTupleOf(ms, children).data| == IntendedTupleInfo(ms).fixedSize
  {
    var infos := Infos(ms);
    var ds := Datas(children);
    MaxAlignmentOfAlignments(infos);
    CountUnsizedCounts(infos);
    forall k | 0 <= k < |ds| ensures |ds[k]| == infos[k].fixedSize {
      InfosAt(ms, k);
    }
    OffsetsTotal(infos, ds);
    LaidEnd(infos, ds);
    assert |TupleData(infos, ds)| == |Laid(infos, ds)|;
  }

  /** Over members of fixed size, the tuple walk reads nothing: data, offset width and offsets start do not matter. */
  lemma {:induction false} FixedWalk(d1: bytes, d2: bytes, t: TupleTypeInfo, w1: nat, w2: nat, o1: nat, o2: nat,
                                     index: nat, idx: nat, offset: nat, seen: nat, typ: bytes)
    requires idx <= |t.memberInfo|
    requires forall k | idx <= k < |t.memberInfo| :: t.memberInfo[k].fixedSize > 0
    ensures TupleWalk(d1, t, w1, o1, index, idx, offset, seen, typ) == TupleWalk(d2, t, w2, o2, index, idx, offset, seen, typ)
    decreases |t.memberInfo| - idx
  {
    if idx < |t.memberInfo| && idx < |t.memberTypes| && t.memberInfo[idx].alignment != 0 {
      var a := t.memberInfo[idx].alignment;
      var start := if offset % a != 0 then offset + (a - offset % a) else offset;
      FixedWalk(d1, d2, t, w1, w2, o1, o2, index, idx + 1, start + t.memberInfo[idx].fixedSize, seen, t.memberTypes[idx]);
    }
  }

  /**
   * The reader cuts member i out of the data of a tuple of fixed size as it cuts it out of
   * the laid-out members alone: trailing padding changes nothing.
   */
  lemma PaddedCut(infos: seq<TypeInfo>, tys: seq<bytes>, ds: seq<bytes>, y: bytes, i: nat) returns (start: nat)
    requires |infos| == |ds| == |tys| && AllAligned(infos) && i < |ds| && CountUnsized(infos) == 0
    requires forall k | 0 <= k < |ds| :: infos[k].fixedSize == 0 || |ds[k]| == infos[k].fixedSize
    requires |Laid(infos, ds)| < USIZE_LIMIT && TupleData(infos, ds) <= y
    ensures CutAt(y, TupleTypeInfo(tys, infos, 0), i, true, |y|, start, start + |ds[i]|, tys[i], ds[i])
  {
    var x := TupleData(infos, ds);
    var t := TupleTypeInfo(tys, infos, 0);
    var offsetsStart;
    offsetsStart, start := LaidCut(infos, tys, ds, true, i);
    CountUnsizedCounts(infos);
    FixedWalk(y, x, t, OffsetItemSize(|y|), OffsetItemSize(|x|), |y|, offsetsStart, i, 0, 0, 0, ANY_TYPE);
    SliceOfPrefix(x, y, start, start + |ds[i]|);
  }

  /**
   * The corrected round trip: a tuple written as intended and read with its intended info
   * hands back member i's data with its type, whatever the members, a Nothing among them
   * and a tuple of fixed size included.
   */
  lemma IntendedTupleRoundTrip(ms: seq<Type>, children: seq<Variant>, i: nat)
    requires ms != [] && |children| == |ms| && i < |ms|
    requires forall k | 0 <= k < |ms| :: children[k].typ == Print(ms[k])
    requires forall k | 0 <= k < |ms| ::
      IntendedTypeInfo(ms[k]).fixedSize == 0 || |children[k].data| == IntendedTypeInfo(ms[k]).fixedSize
    requires |Laid(Infos(ms), Datas(children))| < USIZE_LIMIT
    ensures TupleChild(IntendedTupleOf(ms, children), IntendedTupleInfo(ms), i, true)
      == FromDataWithType(children[i].data, children[i].typ)
  {
    var infos := Infos(ms);
    var ds := Datas(children);
    MaxAlignmentOfAlignments(infos);
    forall k | 0 <= k < |ds| ensures infos[k].fixedSize == 0 || |ds[k]| == infos[k].fixedSize {
      InfosAt(ms, k);
    }
    InfosAt(ms, i);
    var v := IntendedTupleOf(ms, children);
    IntendedChildOfLaid(infos, PrintEach(ms), ds, v.typ, IntendedTupleInfo(ms), v.data, i);
  }

  /** Member i of laid-out tuple data, padded at the end when every member is fixed-size, is what the reader cuts out. */
  lemma IntendedChildOfLaid(infos: seq<TypeInfo>, tys: seq<bytes>, ds: seq<bytes>, typ: bytes, info: TypeInfo,
                            y: bytes, i: nat)
    requires |infos| == |ds| == |tys| && AllAligned(infos) && i < |ds|
    requires forall k | 0 <= k < |ds| :: infos[k].fixedSize == 0 || |ds[k]| == infos[k].fixedSize
    requires |Laid(infos, ds)| < USIZE_LIMIT
    requires info.tuple == Some(TupleTypeInfo(tys, infos, CountUnsized(infos)))
    requires TupleData(infos, ds) <= y && (CountUnsized(infos) > 0 ==> y == TupleData(infos, ds))
    ensures TupleChild(Variant(typ, y), info, i, true) == FromDataWithType(ds[i], tys[i])
  {
    if CountUnsized(infos) > 0 {
      ChildOfLaid(infos, tys, ds, typ, info, true, i);
    } else {
      var start := PaddedCut(infos, tys, ds, y, i);
      TupleChildCut(typ, y, info, TupleTypeInfo(tys, infos, 0), i, true, |y|, start, start + |ds[i]|, tys[i], ds[i]);
    }
  }

  /** Where a member has variable size, `tuple_from_iter` writes the tuple as intended. */
  lemma WrittenAsIntended(ms: seq<Type>, children: seq<Variant>)
    requires ms != [] && |children| == |ms|
    requires forall k | 0 <= k < |ms| :: Plain(ms[k]) && children[k].typ == Print(ms[k])
    requires CountUnsized(Infos(ms)) > 0
    ensures TupleOf(children) == Some(IntendedTupleOf(ms, children))
  {
    TupleShape(ms, children);
    assert IntendedTupleOf(ms, children).data == TupleData(Infos(ms), Datas(children));
  }
  /** The members of `(mys)` laid out as intended: "hi", then the Nothing's end offset 0. */
  lemma NothingMemberData()
    ensures Infos([Maybe(Single(CLASS_BYTE)), Single(CLASS_STRING)]) == [MaybeInfo(1, 0), Unaligned()]
    ensures TupleData([MaybeInfo(1, 0), Unaligned()], [[], [104, 105, 0]]) == [104, 105, 0, 0]
  {
    NothingMemberInfos();
    NothingMemberLaid();
    var infos := [MaybeInfo(1, 0), Unaligned()];
    var ds: seq<bytes> := [[], [104, 105, 0]];
    assert Reversed([0]) == [0];
    assert OffsetSizeForN(3, 1) == 1;
    assert OffsetBytes([0], 1) == [0];
  }

  /** The intended infos of `my` and `s`: both of variable size. */
  lemma NothingMemberInfos()
    ensures Infos([Maybe(Single(CLASS_BYTE)), Single(CLASS_STRING)]) == [MaybeInfo(1, 0), Unaligned()]
  {
    var ms := [Maybe(Single(CLASS_BYTE)), Single(CLASS_STRING)];
    assert ms[1..] == [Single(CLASS_STRING)] && ms[1..][1..] == [];
    assert Infos([Single(CLASS_STRING)]) == [Unaligned()];
  }

  /** The Nothing lays out nothing and records its end 0; "hi" follows at 0. */
  lemma NothingMemberLaid()
    ensures Laid([MaybeInfo(1, 0), Unaligned()], [[], [104, 105, 0]]) == [104, 105, 0]
    ensures LaidOffsets([MaybeInfo(1, 0), Unaligned()], [[], [104, 105, 0]], 2) == [0]
  {
    var infos := [MaybeInfo(1, 0), Unaligned()];
    var ds: seq<bytes> := [[], [104, 105, 0]];
    assert infos[..1] == [MaybeInfo(1, 0)] && ds[..1] == [[]];
    assert infos[..1][..0] == [] && ds[..1][..0] == [];
    assert Laid(infos[..1], ds[..1]) == [];
    assert LaidOffsets(infos[..1], ds[..1], 2) == [0];
  }

  /**
   * `(mys)` from a Nothing and "hi", written and read as intended: the Nothing records its
   * end offset 0, and member 0 comes back as the empty Nothing, member 1 as "hi".
   */
  lemma NothingMemberIntended()
    ensures
      var ms := [Maybe(Single(CLASS_BYTE)), Single(CLASS_STRING)];
      var children := [Variant([CLASS_MAYBE, CLASS_BYTE], []), Variant([CLASS_STRING], [104, 105, 0])];
      && IntendedTupleOf(ms, children).data == [104, 105, 0, 0]
      && TupleChild(IntendedTupleOf(ms, children), IntendedTupleInfo(ms), 0, true) == Some(children[0])
      && TupleChild(IntendedTupleOf(ms, children), IntendedTupleInfo(ms), 1, true) == Some(children[1])
  {
    var ms := [Maybe(Single(CLASS_BYTE)), Single(CLASS_STRING)];
    var children := [Variant([CLASS_MAYBE, CLASS_BYTE], []), Variant([CLASS_STRING], [104, 105, 0])];
    NothingMemberFits(ms, children);
    IntendedTupleRoundTrip(ms, children, 0);
    IntendedTupleRoundTrip(ms, children, 1);
  }

  /** The members of `(mys)`, a Nothing and "hi", meet the corrected round trip's conditions. */
  lemma NothingMemberFits(ms: seq<Type>, children: seq<Variant>)
    requires ms == [Maybe(Single(CLASS_BYTE)), Single(CLASS_STRING)]
    requires children == [Variant([CLASS_MAYBE, CLASS_BYTE], []), Variant([CLASS_STRING], [104, 105, 0])]
    ensures |children| == |ms| && forall k | 0 <= k < |ms| :: children[k].typ == Print(ms[k])
    ensures forall k | 0 <= k < |ms| ::
      IntendedTypeInfo(ms[k]).fixedSize == 0 || |children[k].data| == IntendedTypeInfo(ms[k]).fixedSize
    ensures |Laid(Infos(ms), Datas(children))| < USIZE_LIMIT
    ensures IntendedTupleOf(ms, children).data == [104, 105, 0, 0]
    ensures FromDataWithType(children[0].data, children[0].typ) == Some(children[0])
    ensures FromDataWithType(children[1].data, children[1].typ) == Some(children[1])
  {
    NothingMemberBytes(ms, children);
    InfosAt(ms, 0);
    InfosAt(ms, 1);
    MaybeOfByteInfo();
    StringInfo();
  }

  /** `s` is an unaligned type of variable size. */
  lemma StringInfo()
    ensures TypeInfoOf([CLASS_STRING]) == Some(Unaligned())
  {
  }

  /** The bytes of `(mys)` from a Nothing and "hi", written as intended. */
  lemma NothingMemberBytes(ms: seq<Type>, children: seq<Variant>)
    requires ms == [Maybe(Single(CLASS_BYTE)), Single(CLASS_STRING)]
    requires children == [Variant([CLASS_MAYBE, CLASS_BYTE], []), Variant([CLASS_STRING], [104, 105, 0])]
    ensures |children| == |ms|
    ensures |Laid(Infos(ms), Datas(children))| < USIZE_LIMIT
    ensures IntendedTupleOf(ms, children).data == [104, 105, 0, 0]
  {
    NothingMemberData();
    NothingMemberDatas(children);
    CountsTwo();
    VariableTupleData(ms, children, [MaybeInfo(1, 0), Unaligned()], [[], [104, 105, 0]]);
  }

  /** The data of a Nothing and "hi". */
  lemma NothingMemberDatas(children: seq<Variant>)
    requires children == [Variant([CLASS_MAYBE, CLASS_BYTE], []), Variant([CLASS_STRING], [104, 105, 0])]
    ensures Datas(children) == [[], [104, 105, 0]]
  {
  }

  /** `my` and `s` are both of variable size. */
  lemma CountsTwo()
    ensures CountUnsized([MaybeInfo(1, 0), Unaligned()]) == 2
  {
    var infos := [MaybeInfo(1, 0), Unaligned()];
    assert infos[..1] == [MaybeInfo(1, 0)] && infos[..1][..0] == [];
  }

  /** With a variable-size member, the tuple written as intended is the laid-out data and the offsets, and no shorter than the laid-out data. */
  lemma VariableTupleData(ms: seq<Type>, children: seq<Variant>, infos: seq<TypeInfo>, ds: seq<bytes>)
    requires ms != [] && |children| == |ms| && Infos(ms) == infos && Datas(children) == ds && CountUnsized(infos) > 0
    ensures AllAligned(infos) && |infos| == |ds|
    ensures IntendedTupleOf(ms, children).data == TupleData(infos, ds)
    ensures |Laid(infos, ds)| <= |TupleData(infos, ds)|
  {
    MaxAlignmentOfAlignments(infos);
    LaidLeads(infos, ds);
  }
}
