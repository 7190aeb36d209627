/**
 * `TypeInfo` and `VariantTy::type_info` (src/no_glib/variant_type.rs): the alignment and
 * fixed size of a type (fixed size 0 meaning variable size), and for a tuple the layout of
 * its members, computed from the head of a type string.
 *
 * The code computes this correctly for basic types, maybes of variable-size types and arrays
 * of one-character types, and for tuples of such types all but the fixed size. It departs
 * from the evidently intended values in five places: a maybe takes its element's fixed
 * size, though a Nothing is empty; a fixed-size tuple's size is not padded to its
 * alignment; the empty tuple gets alignment 0, because its special case can never be
 * reached; a tuple reports the position of its `)` as the characters it consumed, so an
 * enclosing tuple stops early; and an array looks at only the one character after `a`.
 * `IntendedTypeInfo` states the intended values on type trees and is proved to agree with
 * the code where the code is right.
 */
module VariantTypeInfo {
  import opened Wrappers
  import opened GvdbUtil
  import opened VariantType
  import opened VariantTypeLength

  /** `TypeInfo`. A fixed size of 0 means that the type has variable size. */
  datatype TypeInfo = TypeInfo(
    alignment: nat,
    fixedSize: nat,
    elementFixedSize: nat,
    nMembers: nat,
    tuple: Option<TupleTypeInfo>)

  /** `TupleTypeInfo`: the members' type strings and infos, and how many are variable-size. */
  datatype TupleTypeInfo = TupleTypeInfo(memberTypes: seq<bytes>, memberInfo: seq<TypeInfo>, nUnsized: nat)

  // The constructors of `TypeInfo`.

  function VariantInfo(alignment: nat, fixedSize: nat): TypeInfo {
    TypeInfo(alignment, fixedSize, fixedSize, 1, None)
  }

  function MaybeInfo(alignment: nat, fixedSize: nat): TypeInfo {
    TypeInfo(alignment, fixedSize, 0, 1, None)
  }

  function ArrayInfo(alignment: nat, fixedSize: nat, elementFixedSize: nat): TypeInfo {
    TypeInfo(alignment, fixedSize, elementFixedSize, 0, None)
  }

  function TupleInfo(alignment: nat, fixedSize: nat, nMembers: nat, tuple: TupleTypeInfo): TypeInfo {
    TypeInfo(alignment, fixedSize, 0, nMembers, Some(tuple))
  }

  function FixedAligned(size: nat): TypeInfo {
    TypeInfo(size, size, 0, 0, None)
  }

  function Unaligned(): TypeInfo {
    TypeInfo(1, 0, 0, 0, None)
  }

  /** The info of a type written as one character: the fixed-size basic types, `s`, `v`, and the rest. */
  function CharInfo(c: byte): TypeInfo {
    if c == CLASS_BOOLEAN || c == CLASS_BYTE then FixedAligned(1)
    else if c == CLASS_INT16 || c == CLASS_UINT16 then FixedAligned(2)
    else if c == CLASS_INT32 || c == CLASS_UINT32 then FixedAligned(4)
    else if c == CLASS_INT64 || c == CLASS_UINT64 || c == CLASS_DOUBLE then FixedAligned(8)
    else if c == CLASS_VARIANT then VariantInfo(8, 0)
    else Unaligned()
  }

  // ---------------------------------------------------------------------------------------
  // `type_info_inner`, as written
  // ---------------------------------------------------------------------------------------

  /** The tuple loop's running state: alignment, size, and the members laid out so far. */
  datatype Layout = Layout(alignment: nat, size: nat, memberTypes: seq<bytes>, memberInfo: seq<TypeInfo>, nUnsized: nat)

  function EmptyLayout(): Layout {
    Layout(0, 0, [], [], 0)
  }

  /** `size` rounded up to the next multiple of `alignment`, as the tuple loop pads. */
  function Pad(size: nat, alignment: nat): nat
    requires alignment > 0
  {
    if size % alignment != 0 then size + (alignment - size % alignment) else size
  }

  /** One more member, of type string `ty` and info `info`, laid out after the others. */
  function Step(l: Layout, ty: bytes, info: TypeInfo): Layout
    requires info.alignment > 0
  {
    Layout(
      Max(l.alignment, info.alignment),
      Pad(l.size, info.alignment) + info.fixedSize,
      l.memberTypes + [ty],
      l.memberInfo + [info],
      l.nUnsized + if info.fixedSize == 0 then 1 else 0)
  }

  /**
   * `type_info_inner` on the type at the head of s, with the number of characters it reports
   * as consumed. None where the code panics: an empty string, an `a` with nothing after it,
   * or a tuple member whose length or info cannot be computed or whose alignment is 0 (the
   * padding takes a remainder by it).
   */
  function Info(s: bytes): (r: Option<(TypeInfo, nat)>)
    ensures r.Some? ==> 1 <= r.value.1 <= |s|
    decreases |s|, 1
  {
    if |s| == 0 then None
    else
      var c := s[0];
      if c == CLASS_MAYBE then
        match Info(s[1..])
        case None => None
        case Some((element, consumed)) => Some((MaybeInfo(element.alignment, element.fixedSize), consumed + 1))
      else if c == CLASS_TUPLE then
        match Members(s, 1, EmptyLayout())
        case None => None
        case Some((l, offset)) =>
          var size := if l.nUnsized > 0 then 0 else l.size;
          Some((TupleInfo(l.alignment, size, |l.memberInfo|, TupleTypeInfo(l.memberTypes, l.memberInfo, l.nUnsized)), offset))
      else if c == CLASS_ARRAY then
        if |s| < 2 then None
        else
          match Info([s[1]])
          case None => None
          case Some((element, consumed)) => Some((ArrayInfo(element.alignment, 0, element.fixedSize), consumed + 1))
      else Some((CharInfo(c), 1))
  }

  /**
   * The member the tuple loop finds at `offset`: its normalised type string, its info, and
   * the number of characters its info reports as consumed. None where the code panics: the
   * length or the info of the rest of the string cannot be computed.
   */
  function MemberAt(s: bytes, offset: nat): (r: Option<(bytes, TypeInfo, nat)>)
    requires 1 <= offset < |s|
    ensures r.Some? ==> 1 <= r.value.2 <= |s| - offset
    decreases |s|, 0, |s| - offset, 0
  {
    var rest := s[offset..];
    match StringLength(rest)
    case None => None
    case Some(length) =>
      match Info(rest)
      case None => None
      case Some((info, consumed)) => Some((rest[..length], info, consumed))
  }

  /**
   * The loop of the tuple branch from position `offset` on: stops at a `)` or the end of s,
   * and otherwise lays out the member at `offset` and moves past the characters its info
   * reports as consumed. None where the code panics, which includes a member of alignment 0
   * (the padding takes a remainder by it). The result is the final layout and position.
   */
  function Members(s: bytes, offset: nat, acc: Layout): (r: Option<(Layout, nat)>)
    requires 1 <= offset <= |s|
    ensures r.Some? ==> offset <= r.value.1 <= |s|
    decreases |s|, 0, |s| - offset, 1
  {
    if offset == |s| || s[offset] == TUPLE_END then Some((acc, offset))
    else
      match MemberAt(s, offset)
      case None => None
      case Some((ty, info, consumed)) =>
        if info.alignment == 0 then None
        else Members(s, offset + consumed, Step(acc, ty, info))
  }

  /** The tuple loop lays out the member at `offset` and moves on. */
  lemma MembersStep(s: bytes, offset: nat, acc: Layout, ty: bytes, info: TypeInfo, consumed: nat)
    requires 1 <= offset < |s| && s[offset] != TUPLE_END
    requires MemberAt(s, offset) == Some((ty, info, consumed)) && info.alignment > 0
    ensures offset + consumed <= |s|
    ensures Members(s, offset, acc) == Members(s, offset + consumed, Step(acc, ty, info))
  {
  }

  /** `type_info`. */
  function TypeInfoOf(s: bytes): Option<TypeInfo> {
    match Info(s)
    case None => None
    case Some((info, _)) => Some(info)
  }

  /** `type_info_inner`: a recursive match on the first character. */
  method TypeInfoInner(s: bytes) returns (r: Option<(TypeInfo, nat)>)
    ensures r == Info(s)
    decreases |s|, 1
  {
    if |s| == 0 {
      return None;
    }
    var c := s[0];
    if c == CLASS_MAYBE {
      var element := TypeInfoInner(s[1..]);
      if element.None? {
        return None;
      }
      var (info, consumed) := element.value;
      r := Some((MaybeInfo(info.alignment, info.fixedSize), consumed + 1));
    } else if c == CLASS_TUPLE {
      r := TupleTypeInfoInner(s);
    } else if c == CLASS_ARRAY {
      if |s| < 2 {
        return None;
      }
      var element := TypeInfoInner([s[1]]);
      if element.None? {
        return None;
      }
      var (info, consumed) := element.value;
      r := Some((ArrayInfo(info.alignment, 0, info.fixedSize), consumed + 1));
    } else {
      r := Some((CharInfo(c), 1));
    }
  }

  /** The tuple branch of `type_info_inner`: the loop that lays out the members. */
  method TupleTypeInfoInner(s: bytes) returns (r: Option<(TypeInfo, nat)>)
    requires |s| > 0 && s[0] == CLASS_TUPLE
    ensures r == Info(s)
    decreases |s|, 0
  {
    var memberTypes: seq<bytes> := [];
    var memberInfo: seq<TypeInfo> := [];
    var nUnsized: nat := 0;
    var tupleAlignment: nat := 0;
    var size: nat := 0;
    var offset: nat := 1;
    var nMembers: nat := 0;
    ghost var laidOut := Members(s, 1, EmptyLayout());
    while offset < |s|
      invariant 1 <= offset <= |s| && nMembers == |memberInfo|
      invariant Members(s, offset, Layout(tupleAlignment, size, memberTypes, memberInfo, nUnsized)) == laidOut
      decreases |s| - offset
    {
      var rest := s[offset..];
      if rest[0] == TUPLE_END {
        break;
      }
      var length := StringLengthInner(rest);
      if length.None? {
        return None;
      }
      var member := TypeInfoInner(rest);
      if member.None? {
        return None;
      }
      var (info, consumed) := member.value;
      assert MemberAt(s, offset) == Some((rest[..length.value], info, consumed));
      ghost var before := Layout(tupleAlignment, size, memberTypes, memberInfo, nUnsized);
      ghost var start := offset;
      offset := offset + consumed;
      tupleAlignment := Max(tupleAlignment, info.alignment);
      if info.fixedSize == 0 {
        nUnsized := nUnsized + 1;
      }
      if info.alignment == 0 {
        return None;
      }
      if size % info.alignment != 0 {
        size := size + (info.alignment - size % info.alignment);
      }
      size := size + info.fixedSize;
      memberTypes := memberTypes + [rest[..length.value]];
      memberInfo := memberInfo + [info];
      nMembers := nMembers + 1;
      assert Layout(tupleAlignment, size, memberTypes, memberInfo, nUnsized)
          == Step(before, rest[..length.value], info);
      MembersStep(s, start, before, rest[..length.value], info, consumed);
    }
    if nUnsized > 0 {
      size := 0;
    }
    r := Some((TupleInfo(tupleAlignment, size, nMembers, TupleTypeInfo(memberTypes, memberInfo, nUnsized)), offset));
  }

  // ---------------------------------------------------------------------------------------
  // What the tuple loop lays out
  // ---------------------------------------------------------------------------------------

  /** Padding moves `size` up to the first multiple of `alignment` at or after it. */
  lemma PadRoundsUp(size: nat, alignment: nat)
    requires alignment > 0
    ensures Pad(size, alignment) % alignment == 0
    ensures size <= Pad(size, alignment) < size + alignment
  {
    var q, r := size / alignment, size % alignment;
    assert size == q * alignment + r;
    if r != 0 {
      assert Pad(size, alignment) == (q + 1) * alignment;
      MultipleMod(q + 1, alignment);
    } else {
      MultipleMod(q, alignment);
    }
  }

  lemma MultipleMod(q: nat, a: nat)
    requires a > 0
    ensures (q * a) % a == 0
  {
    var m := q * a;
    var d := q - m / a;
    assert m == (m / a) * a + m % a;
    assert d * a == q * a - (m / a) * a;
    MultipleBounds(d, a);
  }

  lemma MultipleBounds(d: int, a: int)
    requires a > 0
    ensures d > 0 ==> d * a >= a
    ensures d < 0 ==> d * a <= -a
  {
  }

  predicate AllAligned(infos: seq<TypeInfo>) {
    forall i | 0 <= i < |infos| :: infos[i].alignment > 0
  }

  /** The largest alignment among infos (0 for none). */
  function MaxAlignment(infos: seq<TypeInfo>): nat {
    if infos == [] then 0 else Max(MaxAlignment(infos[..|infos| - 1]), infos[|infos| - 1].alignment)
  }

  /** How many of infos have variable size. */
  function CountUnsized(infos: seq<TypeInfo>): nat {
    if infos == [] then 0
    else CountUnsized(infos[..|infos| - 1]) + if infos[|infos| - 1].fixedSize == 0 then 1 else 0
  }

  /** Where member i starts: the first offset after the members before it that suits its alignment. */
  function Start(infos: seq<TypeInfo>, i: nat): nat
    requires AllAligned(infos) && i < |infos|
    decreases infos, 0
  {
    Pad(End(infos[..i]), infos[i].alignment)
  }

  /** Where the last of infos ends, each placed at its start (0 for none). */
  function End(infos: seq<TypeInfo>): nat
    requires AllAligned(infos)
    decreases infos, 1
  {
    if infos == [] then 0 else Start(infos, |infos| - 1) + infos[|infos| - 1].fixedSize
  }

  /** A layout whose alignment, size and unsized count are those of its member list. */
  predicate Consistent(l: Layout) {
    && |l.memberTypes| == |l.memberInfo|
    && AllAligned(l.memberInfo)
    && l.alignment == MaxAlignment(l.memberInfo)
    && l.size == End(l.memberInfo)
    && l.nUnsized == CountUnsized(l.memberInfo)
  }

  lemma StepConsistent(l: Layout, ty: bytes, info: TypeInfo)
    requires Consistent(l) && info.alignment > 0
    ensures Consistent(Step(l, ty, info))
  {
    var infos := l.memberInfo + [info];
    assert infos[..|infos| - 1] == l.memberInfo;
  }

  lemma {:induction false} MembersConsistent(s: bytes, offset: nat, acc: Layout)
    requires 1 <= offset <= |s| && Consistent(acc) && Members(s, offset, acc).Some?
    ensures Consistent(Members(s, offset, acc).value.0)
    decreases |s| - offset
  {
    if offset == |s| || s[offset] == TUPLE_END {
    } else {
      var (ty, info, consumed) := MemberAt(s, offset).value;
      StepConsistent(acc, ty, info);
      MembersConsistent(s, offset + consumed, Step(acc, ty, info));
    }
  }

  /**
   * Whatever members the tuple loop finds, the tuple's info describes them: its alignment is
   * the largest member alignment, its member count and unsized count are those of the member
   * list, and its fixed size is where the last member ends when each member is placed at its
   * alignment after the one before, or 0 when a member has variable size.
   */
  lemma TupleInfoLaysOutMembers(s: bytes)
    requires |s| > 0 && s[0] == CLASS_TUPLE && Info(s).Some?
    ensures Info(s).value.0.tuple.Some?
    ensures
      var info := Info(s).value.0;
      var members := info.tuple.value.memberInfo;
      && AllAligned(members)
      && info.nMembers == |members| == |info.tuple.value.memberTypes|
      && info.alignment == MaxAlignment(members)
      && info.tuple.value.nUnsized == CountUnsized(members)
      && info.fixedSize == (if CountUnsized(members) > 0 then 0 else End(members))
  {
    MembersConsistent(s, 1, EmptyLayout());
  }

  /** The tuple alignment is at least every member's alignment, and is one of them. */
  lemma {:induction false} MaxAlignmentIsLargest(infos: seq<TypeInfo>)
    ensures forall i | 0 <= i < |infos| :: infos[i].alignment <= MaxAlignment(infos)
    ensures infos != [] ==> exists i | 0 <= i < |infos| :: infos[i].alignment == MaxAlignment(infos)
  {
    if infos != [] {
      var front := infos[..|infos| - 1];
      MaxAlignmentIsLargest(front);
      assert forall i | 0 <= i < |front| :: front[i] == infos[i];
      if front != [] && MaxAlignment(front) > infos[|infos| - 1].alignment {
        var i :| 0 <= i < |front| && front[i].alignment == MaxAlignment(front);
        assert infos[i].alignment == MaxAlignment(infos);
      } else {
        assert infos[|infos| - 1].alignment == MaxAlignment(infos);
      }
    }
  }

  /** The unsized count is 0 exactly when every member has a fixed size. */
  lemma {:induction false} CountUnsizedCounts(infos: seq<TypeInfo>)
    ensures CountUnsized(infos) <= |infos|
    ensures CountUnsized(infos) == 0 <==> forall i | 0 <= i < |infos| :: infos[i].fixedSize > 0
  {
    if infos != [] {
      var front := infos[..|infos| - 1];
      CountUnsizedCounts(front);
      assert forall i | 0 <= i < |front| :: front[i] == infos[i];
    }
  }

  /**
   * Member i starts at a multiple of its alignment, at or after the end of the members before
   * it and less than one alignment past it, and the members up to it end at its start plus
   * its fixed size.
   */
  lemma MembersPlaced(infos: seq<TypeInfo>, i: nat)
    requires AllAligned(infos) && i < |infos|
    ensures Start(infos, i) % infos[i].alignment == 0
    ensures End(infos[..i]) <= Start(infos, i) < End(infos[..i]) + infos[i].alignment
    ensures End(infos[..i + 1]) == Start(infos, i) + infos[i].fixedSize
  {
    PadRoundsUp(End(infos[..i]), infos[i].alignment);
    var upTo := infos[..i + 1];
    assert upTo[..i] == infos[..i];
    assert Start(upTo, i) == Start(infos, i);
  }

  // ---------------------------------------------------------------------------------------
  // The intended type info, on type trees
  // ---------------------------------------------------------------------------------------

  predicate AllAlignments(infos: seq<TypeInfo>) {
    forall i | 0 <= i < |infos| :: IsAlignment(infos[i].alignment)
  }

  lemma MaxAlignmentOfAlignments(infos: seq<TypeInfo>)
    requires infos != [] && AllAlignments(infos)
    ensures IsAlignment(MaxAlignment(infos)) && AllAligned(infos)
  {
    MaxAlignmentIsLargest(infos);
  }

  /**
   * The info a type tree evidently should get: a one-character type from the table, a maybe
   * or an array aligned as its element and of variable size (a maybe's Nothing is empty, its
   * Just is not), a non-empty tuple from its members placed in order, and the empty tuple as
   * a 1-byte fixed-size type. A dict entry is laid out as the tuple of its key
   * and value, as the GVariant format lays it out. Every alignment is 1, 2, 4 or 8.
   */
  function IntendedTypeInfo(t: Type): (r: TypeInfo)
    ensures IsAlignment(r.alignment)
    decreases t, 1
  {
    match t
    case Single(c) => CharInfo(c)
    case Tuple(ms) => if ms == [] then FixedAligned(1) else IntendedTupleInfo(ms)
    case DictEntry(k, v) =>
      var infos := [CharInfo(k), IntendedTypeInfo(v)];
      var nUnsized := CountUnsized(infos);
      MaxAlignmentOfAlignments(infos);
      TupleInfo(MaxAlignment(infos), TupleSize(infos), 2, TupleTypeInfo([[k], Print(v)], infos, nUnsized))
    case Maybe(e) =>
      MaybeInfo(IntendedTypeInfo(e).alignment, 0)
    case Array(e) =>
      var element := IntendedTypeInfo(e);
      ArrayInfo(element.alignment, 0, element.fixedSize)
  }

  /**
   * The intended info of a non-empty tuple: its members placed in order, each at its
   * alignment, the tuple aligned as its most aligned member and of fixed size only when every
   * member is.
   */
  function IntendedTupleInfo(ms: seq<Type>): (r: TypeInfo)
    requires ms != []
    ensures IsAlignment(r.alignment)
    decreases ms, 1
  {
    var infos := Infos(ms);
    MaxAlignmentOfAlignments(infos);
    TupleInfo(MaxAlignment(infos), TupleSize(infos), |ms|, TupleTypeInfo(PrintEach(ms), infos, CountUnsized(infos)))
  }

  /**
   * The fixed size of a tuple of members with infos `infos`: 0 when a member has variable
   * size, else where the last member ends, padded to the tuple's alignment so that the
   * tuples of an array stay aligned.
   */
  function TupleSize(infos: seq<TypeInfo>): nat
    requires AllAligned(infos) && MaxAlignment(infos) > 0
  {
    if CountUnsized(infos) > 0 then 0 else Pad(End(infos), MaxAlignment(infos))
  }

  /**
   * The info the code gives a non-empty tuple of members whose info it gets right: the
   * intended one, except that a fixed size stops where the last member ends.
   */
  function WrittenTupleInfo(ms: seq<Type>): TypeInfo
    requires ms != []
  {
    var infos := Infos(ms);
    var nUnsized := CountUnsized(infos);
    MaxAlignmentOfAlignments(infos);
    TupleInfo(MaxAlignment(infos), if nUnsized > 0 then 0 else End(infos), |ms|,
      TupleTypeInfo(PrintEach(ms), infos, nUnsized))
  }

  /** The intended infos of the members ms. */
  function Infos(ms: seq<Type>): (r: seq<TypeInfo>)
    ensures |r| == |ms| && AllAlignments(r)
    decreases ms, 0
  {
    if ms == [] then [] else [IntendedTypeInfo(ms[0])] + Infos(ms[1..])
  }

  /**
   * The types whose info the code computes as intended: one-character types, maybes of such
   * types of variable size, and arrays of one-character types.
   */
  predicate Plain(t: Type) {
    match t
    case Single(c) => IsSingleCharType(c)
    case Maybe(e) => Plain(e) && IntendedTypeInfo(e).fixedSize == 0
    case Array(e) => e.Single? && IsSingleCharType(e.c)
    case _ => false
  }

  lemma {:induction false} PlainIsDictFree(t: Type)
    requires Plain(t)
    ensures WellFormed(t) && DictFree(t) && Print(t)[0] != TUPLE_END
  {
    if t.Maybe? {
      PlainIsDictFree(t.element);
    }
  }

  /**
   * One-character types, maybes of variable-size types the code gets right and arrays of
   * one-character types get their intended info, and consume exactly their type string.
   */
  lemma {:induction false} PlainTypeInfo(t: Type, rest: bytes)
    requires Plain(t)
    ensures Info(Print(t) + rest) == Some((IntendedTypeInfo(t), |Print(t)|))
  {
    var s := Print(t) + rest;
    match t
    case Single(c) =>
      assert s[0] == c;
    case Maybe(e) =>
      assert s[0] == CLASS_MAYBE;
      assert s[1..] == Print(e) + rest;
      PlainTypeInfo(e, rest);
    case Array(e) =>
      assert s[0] == CLASS_ARRAY && s[1] == e.c;
      assert Info([e.c]) == Some((CharInfo(e.c), 1));
  }

  /** The tuple loop finds a member the code gets right with its type string and intended info. */
  lemma PlainMemberAt(s: bytes, i: nat, m: Type)
    requires 1 <= i && Plain(m) && Spells(s, i, Print(m)) && i + |Print(m)| < |s|
    ensures s[i] != TUPLE_END
    ensures MemberAt(s, i) == Some((Print(m), IntendedTypeInfo(m), |Print(m)|))
  {
    PlainIsDictFree(m);
    var n := |Print(m)|;
    var after := s[i + n..];
    assert s[i..] == s[i..i + n] + after;
    StringLengthOfPrinted(m, after);
    PlainTypeInfo(m, after);
    SpellsAt(s, i, Print(m), 0);
    assert s[i..][..n] == Print(m);
  }

  /** The total length of the type strings tys. */
  function Total(tys: seq<bytes>): nat
    decreases tys
  {
    if tys == [] then 0 else |tys[0]| + Total(tys[1..])
  }

  /**
   * From position i on, the tuple loop finds members with the type strings tys and the infos
   * infos, one after the other, and then a `)`.
   */
  predicate Finds(s: bytes, i: nat, tys: seq<bytes>, infos: seq<TypeInfo>)
    decreases tys
  {
    && 1 <= i < |s| && |tys| == |infos|
    && if tys == [] then s[i] == TUPLE_END
       else
         && s[i] != TUPLE_END && infos[0].alignment > 0
         && MemberAt(s, i) == Some((tys[0], infos[0], |tys[0]| as nat))
         && Finds(s, i + |tys[0]|, tys[1..], infos[1..])
  }

  /**
   * The layout after acc and then members with the type strings tys and the infos infos (up to
   * the first member of alignment 0, which the loop never gets past).
   */
  function LayoutOf(acc: Layout, tys: seq<bytes>, infos: seq<TypeInfo>): Layout
    requires |tys| == |infos|
    decreases tys
  {
    if tys == [] || infos[0].alignment == 0 then acc
    else LayoutOf(Step(acc, tys[0], infos[0]), tys[1..], infos[1..])
  }

  /** Appending the head and then the tail of xs appends xs. */
  lemma Appended<X>(front: seq<X>, xs: seq<X>)
    requires xs != []
    ensures front + [xs[0]] + xs[1..] == front + xs
  {
    assert xs == [xs[0]] + xs[1..];
  }

  /** LayoutOf appends the members' infos and type strings to those of acc. */
  lemma {:induction false} LayoutOfAppends(acc: Layout, tys: seq<bytes>, infos: seq<TypeInfo>)
    requires |tys| == |infos| && AllAligned(infos)
    ensures LayoutOf(acc, tys, infos).memberInfo == acc.memberInfo + infos
    ensures LayoutOf(acc, tys, infos).memberTypes == acc.memberTypes + tys
    decreases tys
  {
    if tys != [] {
      var next := Step(acc, tys[0], infos[0]);
      LayoutOfAppends(next, tys[1..], infos[1..]);
      assert LayoutOf(acc, tys, infos) == LayoutOf(next, tys[1..], infos[1..]);
      Appended(acc.memberInfo, infos);
      Appended(acc.memberTypes, tys);
    }
  }

  /** The tuple loop over members it finds one by one lays them out in order and stops at `)`. */
  lemma {:induction false} MembersFound(s: bytes, i: nat, tys: seq<bytes>, infos: seq<TypeInfo>, acc: Layout)
    requires Finds(s, i, tys, infos)
    ensures i + Total(tys) < |s|
    ensures Members(s, i, acc) == Some((LayoutOf(acc, tys, infos), i + Total(tys)))
    decreases tys
  {
    if tys != [] {
      MembersStep(s, i, acc, tys[0], infos[0], |tys[0]|);
      MembersFound(s, i + |tys[0]|, tys[1..], infos[1..], Step(acc, tys[0], infos[0]));
    }
  }

  /**
   * A tuple body spelling members the code gets right is found member by member, with their
   * type strings and intended infos.
   */
  lemma {:induction false} SpelledMembersAreFound(s: bytes, i: nat, ms: seq<Type>)
    requires 1 <= i && Spells(s, i, PrintAll(ms)) && i + |PrintAll(ms)| < |s| && s[i + |PrintAll(ms)|] == TUPLE_END
    requires forall k | 0 <= k < |ms| :: Plain(ms[k])
    ensures Finds(s, i, PrintEach(ms), Infos(ms))
    ensures Total(PrintEach(ms)) == |PrintAll(ms)|
    decreases ms
  {
    if ms != [] {
      SpellsMembers(s, i, ms);
      PlainMemberAt(s, i, ms[0]);
      SpelledMembersAreFound(s, i + |Print(ms[0])|, ms[1..]);
      FindsStep(s, i, ms[0], ms[1..]);
      Uncons(ms);
    } else {
      assert |PrintAll(ms)| == 0;
    }
  }

  /** One more member found in front of the others. */
  lemma FindsStep(s: bytes, i: nat, m: Type, tail: seq<Type>)
    requires 1 <= i < |s| && s[i] != TUPLE_END
    requires MemberAt(s, i) == Some((Print(m), IntendedTypeInfo(m), |Print(m)|))
    requires Finds(s, i + |Print(m)|, PrintEach(tail), Infos(tail))
    ensures Finds(s, i, PrintEach([m] + tail), Infos([m] + tail))
    ensures Total(PrintEach([m] + tail)) == |Print(m)| + Total(PrintEach(tail))
  {
    assert ([m] + tail)[1..] == tail;
  }

  /** A non-empty sequence is its head followed by its tail. */
  lemma Uncons<X>(xs: seq<X>)
    requires xs != []
    ensures xs == [xs[0]] + xs[1..]
  {
  }

  /**
   * A non-empty tuple of such types gets its intended info but for an unpadded fixed size,
   * and reports one character fewer than its type string as consumed: its `)` is not counted.
   */
  lemma PlainTupleTypeInfo(ms: seq<Type>, rest: bytes)
    requires ms != [] && forall k | 0 <= k < |ms| :: Plain(ms[k])
    ensures Info(Print(Tuple(ms)) + rest) == Some((WrittenTupleInfo(ms), |Print(Tuple(ms))| - 1))
  {
    var s := Print(Tuple(ms)) + rest;
    SpellsPrefix(Tuple(ms), rest);
    PlainTupleLayout(s, ms);
    LaidOutTupleInfo(s, ms, |Print(Tuple(ms))| - 1);
  }

  /** A tuple whose members the loop lays out with their intended infos gets the info the code gives it. */
  lemma LaidOutTupleInfo(s: bytes, ms: seq<Type>, offset: nat)
    requires ms != [] && |s| > 0 && s[0] == CLASS_TUPLE
    requires Members(s, 1, EmptyLayout()) == Some((LayoutOf(EmptyLayout(), PrintEach(ms), Infos(ms)), offset))
    requires Consistent(LayoutOf(EmptyLayout(), PrintEach(ms), Infos(ms)))
    ensures Info(s) == Some((WrittenTupleInfo(ms), offset))
  {
    var l := LayoutOf(EmptyLayout(), PrintEach(ms), Infos(ms));
    assert AllAligned(Infos(ms));
    LayoutOfAppends(EmptyLayout(), PrintEach(ms), Infos(ms));
    TupleInfoOfLayout(s, l, offset);
    WrittenTupleOfLayout(ms, l);
  }

  /** The tuple loop lays out the members of a spelled tuple of such types, ending at its `)`. */
  lemma PlainTupleLayout(s: bytes, ms: seq<Type>)
    requires Spells(s, 0, Print(Tuple(ms))) && forall k | 0 <= k < |ms| :: Plain(ms[k])
    ensures |s| > 0 && s[0] == CLASS_TUPLE
    ensures Members(s, 1, EmptyLayout()) == Some((LayoutOf(EmptyLayout(), PrintEach(ms), Infos(ms)), |Print(Tuple(ms))| - 1))
    ensures Consistent(LayoutOf(EmptyLayout(), PrintEach(ms), Infos(ms)))
  {
    SpellsTuple(s, 0, ms);
    SpelledMembersAreFound(s, 1, ms);
    MembersFound(s, 1, PrintEach(ms), Infos(ms), EmptyLayout());
    MembersConsistent(s, 1, EmptyLayout());
  }

  /** The tuple branch turns the layout the loop ends with into the tuple's info. */
  lemma TupleInfoOfLayout(s: bytes, l: Layout, offset: nat)
    requires |s| > 0 && s[0] == CLASS_TUPLE && Members(s, 1, EmptyLayout()) == Some((l, offset))
    ensures Info(s) == Some((TupleInfo(l.alignment, if l.nUnsized > 0 then 0 else l.size, |l.memberInfo|,
      TupleTypeInfo(l.memberTypes, l.memberInfo, l.nUnsized)), offset))
  {
  }

  /** A consistent layout of a tuple's members' intended infos gives the info the code gives the tuple. */
  lemma WrittenTupleOfLayout(ms: seq<Type>, l: Layout)
    requires ms != [] && Consistent(l) && l.memberInfo == [] + Infos(ms) && l.memberTypes == [] + PrintEach(ms)
    ensures WrittenTupleInfo(ms) == TupleInfo(l.alignment, if l.nUnsized > 0 then 0 else l.size, |l.memberInfo|,
      TupleTypeInfo(l.memberTypes, l.memberInfo, l.nUnsized))
  {
    assert l.memberInfo == Infos(ms) && l.memberTypes == PrintEach(ms);
  }

  /**
   * A fixed-size tuple's intended size is where its last member ends, rounded up to the
   * tuple's alignment. The code's info differs from it in that size alone, is never larger,
   * and is right exactly when the last member already ends on the tuple's alignment.
   */
  lemma TupleSizePadded(ms: seq<Type>)
    requires ms != []
    ensures IntendedTupleInfo(ms).fixedSize % IntendedTupleInfo(ms).alignment == 0
    ensures CountUnsized(Infos(ms)) == 0 ==>
      End(Infos(ms)) <= IntendedTupleInfo(ms).fixedSize < End(Infos(ms)) + IntendedTupleInfo(ms).alignment
    ensures WrittenTupleInfo(ms) == IntendedTupleInfo(ms).(fixedSize := WrittenTupleInfo(ms).fixedSize)
    ensures WrittenTupleInfo(ms).fixedSize <= IntendedTupleInfo(ms).fixedSize
    ensures WrittenTupleInfo(ms).fixedSize == IntendedTupleInfo(ms).fixedSize
      <==> WrittenTupleInfo(ms).fixedSize % WrittenTupleInfo(ms).alignment == 0
  {
    var infos := Infos(ms);
    MaxAlignmentOfAlignments(infos);
    if CountUnsized(infos) == 0 {
      PadRoundsUp(End(infos), MaxAlignment(infos));
    }
  }

  /** The members of the intended info of a tuple are those of its members, in order. */
  lemma {:induction false} InfosAt(ms: seq<Type>, i: nat)
    requires i < |ms|
    ensures Infos(ms)[i] == IntendedTypeInfo(ms[i]) && PrintEach(ms)[i] == Print(ms[i])
    decreases ms
  {
    if i > 0 {
      InfosAt(ms[1..], i - 1);
    }
  }

  // ---------------------------------------------------------------------------------------
  // Where the code departs from the intended info
  // ---------------------------------------------------------------------------------------

  /**
   * The fixed-size basic types are aligned to their size, `s` and the wildcards are
   * unaligned and of variable size, and `v` is 8-aligned and of variable size.
   */
  lemma CharTypeInfo(c: byte, rest: bytes)
    requires IsSingleCharType(c)
    ensures Info([c] + rest) == Some((IntendedTypeInfo(Single(c)), 1))
    ensures var info := IntendedTypeInfo(Single(c));
      && ((c == CLASS_BOOLEAN || c == CLASS_BYTE) ==> info.alignment == info.fixedSize == 1)
      && ((c == CLASS_INT16 || c == CLASS_UINT16) ==> info.alignment == info.fixedSize == 2)
      && ((c == CLASS_INT32 || c == CLASS_UINT32) ==> info.alignment == info.fixedSize == 4)
      && ((c == CLASS_INT64 || c == CLASS_UINT64 || c == CLASS_DOUBLE) ==> info.alignment == info.fixedSize == 8)
      && (c == CLASS_VARIANT ==> info.alignment == 8 && info.fixedSize == 0)
      && (c == CLASS_STRING || c == CLASS_ANY_BASIC || c == CLASS_ANY_TUPLE || c == CLASS_ANY ==>
            info.alignment == 1 && info.fixedSize == 0)
  {
    PlainTypeInfo(Single(c), rest);
  }

  /**
   * `()`: the code's special case for the empty tuple tests for an empty type string, which
   * cannot happen after reading its first character, so the loop runs instead and leaves the
   * alignment at 0, and the `)` is not counted as consumed.
   */
  lemma EmptyTupleInfo()
    ensures Print(Tuple([])) == [CLASS_TUPLE, TUPLE_END]
    ensures Info([CLASS_TUPLE, TUPLE_END]) == Some((TupleInfo(0, 0, 0, TupleTypeInfo([], [], 0)), 1))
    ensures IntendedTypeInfo(Tuple([])) == FixedAligned(1)
  {
    assert PrintAll([]) == [];
  }

  /**
   * `(uy)`: the code stops the tuple's fixed size where the `y` ends, at 5 bytes, where a
   * 4-aligned tuple evidently takes 8, so that the next element of an array of such tuples
   * starts on its alignment.
   */
  lemma UnpaddedTupleInfo()
    ensures Print(Tuple([Single(CLASS_UINT32), Single(CLASS_BYTE)])) == [CLASS_TUPLE, CLASS_UINT32, CLASS_BYTE, TUPLE_END]
    ensures Info([CLASS_TUPLE, CLASS_UINT32, CLASS_BYTE, TUPLE_END]) == Some((TupleInfo(4, 5, 2,
      TupleTypeInfo([[CLASS_UINT32], [CLASS_BYTE]], [FixedAligned(4), FixedAligned(1)], 0)), 3))
    ensures IntendedTypeInfo(Tuple([Single(CLASS_UINT32), Single(CLASS_BYTE)])).fixedSize == 8
  {
    var ms := [Single(CLASS_UINT32), Single(CLASS_BYTE)];
    assert ms[1..] == [Single(CLASS_BYTE)] && ms[1..][1..] == [];
    assert PrintAll([Single(CLASS_BYTE)]) == [CLASS_BYTE];
    assert PrintAll(ms) == [CLASS_UINT32, CLASS_BYTE];
    assert PrintEach(ms) == [[CLASS_UINT32], [CLASS_BYTE]];
    assert Print(Tuple(ms)) + [] == [CLASS_TUPLE, CLASS_UINT32, CLASS_BYTE, TUPLE_END];
    PlainTupleTypeInfo(ms, []);
    var infos := [FixedAligned(4), FixedAligned(1)];
    assert CharInfo(CLASS_UINT32) == FixedAligned(4) && CharInfo(CLASS_BYTE) == FixedAligned(1);
    assert Infos([Single(CLASS_BYTE)]) == [FixedAligned(1)];
    assert Infos(ms) == infos;
    assert infos[..1] == [FixedAligned(4)] && infos[..1][..0] == [];
    assert End(infos[..1][..0]) == 0;
    assert Start(infos[..1], 0) == 0;
    assert End(infos[..1]) == 4;
    assert End(infos) == 5;
    assert MaxAlignment(infos[..1]) == 4;
    assert MaxAlignment(infos) == 4;
    assert CountUnsized(infos) == 0;
    assert Pad(5, 4) == 8;
  }

  /** `(())`: the inner empty tuple's alignment of 0 makes the padding divide by zero. */
  lemma NestedEmptyTupleInfo()
    ensures Info([CLASS_TUPLE, CLASS_TUPLE, TUPLE_END, TUPLE_END]) == None
    ensures IntendedTypeInfo(Tuple([Tuple([])])).alignment == 1
  {
    var s: bytes := [CLASS_TUPLE, CLASS_TUPLE, TUPLE_END, TUPLE_END];
    assert s[1..] == [CLASS_TUPLE, TUPLE_END, TUPLE_END];
    assert Scan(s[1..], 1, 1, false) == Some(2);
    assert StringLength(s[1..]) == Some(2);
    assert Members(s[1..], 1, EmptyLayout()) == Some((EmptyLayout(), 1));
    assert Info(s[1..]) == Some((TupleInfo(0, 0, 0, TupleTypeInfo([], [], 0)), 1));
    assert Members(s, 1, EmptyLayout()) == None;
    assert Infos([Tuple([])]) == [FixedAligned(1)];
  }

  /**
   * `((y)u)`: the inner tuple reports 2 characters consumed, so the loop resumes at its `)`
   * and stops there: the outer tuple gets one member instead of two, and the `u` is lost.
   */
  lemma NestedTupleInfo()
    ensures
      var s: bytes := [CLASS_TUPLE, CLASS_TUPLE, CLASS_BYTE, TUPLE_END, CLASS_UINT32, TUPLE_END];
      && Info(s).Some? && Info(s).value.0.nMembers == 1 && Info(s).value.0.alignment == 1
    ensures
      var t := Tuple([Tuple([Single(CLASS_BYTE)]), Single(CLASS_UINT32)]);
      && Print(t) == [CLASS_TUPLE, CLASS_TUPLE, CLASS_BYTE, TUPLE_END, CLASS_UINT32, TUPLE_END]
      && IntendedTypeInfo(t).nMembers == 2 && IntendedTypeInfo(t).alignment == 4
  {
    var s: bytes := [CLASS_TUPLE, CLASS_TUPLE, CLASS_BYTE, TUPLE_END, CLASS_UINT32, TUPLE_END];
    var inner := s[1..];
    assert inner == [CLASS_TUPLE, CLASS_BYTE, TUPLE_END, CLASS_UINT32, TUPLE_END];
    assert inner[2..] == [TUPLE_END, CLASS_UINT32, TUPLE_END];
    assert inner[1..] == [CLASS_BYTE, TUPLE_END, CLASS_UINT32, TUPLE_END];
    assert Scan(inner, 1, 1, false) == Scan(inner, 2, 1, false) == Some(3);
    assert StringLength(inner) == Some(3);
    assert StringLength(inner[1..]) == Some(1);
    assert Info(inner[1..]) == Some((FixedAligned(1), 1));
    var l := Step(EmptyLayout(), inner[1..][..1], FixedAligned(1));
    assert Members(inner, 2, l) == Some((l, 2));
    assert Members(inner, 1, EmptyLayout()) == Some((l, 2));
    var innerInfo := TupleInfo(1, 1, 1, TupleTypeInfo(l.memberTypes, l.memberInfo, 0));
    assert Info(inner) == Some((innerInfo, 2));
    var outer := Step(EmptyLayout(), inner[..3], innerInfo);
    assert Members(s, 3, outer) == Some((outer, 3));
    assert Members(s, 1, EmptyLayout()) == Some((outer, 3));
    var t := Tuple([Tuple([Single(CLASS_BYTE)]), Single(CLASS_UINT32)]);
    assert PrintAll([Single(CLASS_UINT32)]) == [CLASS_UINT32];
    assert PrintAll([Single(CLASS_BYTE)]) == [CLASS_BYTE];
    assert Print(Tuple([Single(CLASS_BYTE)])) == [CLASS_TUPLE, CLASS_BYTE, TUPLE_END];
    var ms := [Tuple([Single(CLASS_BYTE)]), Single(CLASS_UINT32)];
    assert ms[1..] == [Single(CLASS_UINT32)];
    assert PrintAll(ms) == [CLASS_TUPLE, CLASS_BYTE, TUPLE_END, CLASS_UINT32];
    var infos := Infos(ms);
    InfosAt(ms, 0);
    InfosAt(ms, 1);
    assert infos[1].alignment == 4;
    MaxAlignmentIsLargest(infos);
    var single := [Single(CLASS_BYTE)];
    assert Infos(single) == [FixedAligned(1)];
    assert [FixedAligned(1)][..0] == [];
    assert MaxAlignment([FixedAligned(1)]) == 1;
    assert infos[0].alignment == 1;
    assert infos[..1][..0] == [];
    assert MaxAlignment(infos[..1]) == 1;
    assert MaxAlignment(infos) == 4;
  }

  /** `aay`: the array branch looks at the single character after `a`, which here is `a` again. */
  lemma ArrayOfArrayInfo()
    ensures Info([CLASS_ARRAY, CLASS_ARRAY, CLASS_BYTE]) == None
    ensures IntendedTypeInfo(Array(Array(Single(CLASS_BYTE)))) == ArrayInfo(1, 0, 0)
  {
    assert [CLASS_ARRAY, CLASS_ARRAY, CLASS_BYTE][1] == CLASS_ARRAY;
  }

  /**
   * `{yy}`: the code has no dict-entry branch, so `{` falls to the default arm, an unaligned
   * variable-size type of one character, where the entry is a 2-byte fixed-size pair.
   */
  lemma DictEntryInfo()
    ensures Info([CLASS_DICT_ENTRY, CLASS_BYTE, CLASS_BYTE, DICT_END]) == Some((Unaligned(), 1))
    ensures var t := DictEntry(CLASS_BYTE, Single(CLASS_BYTE));
      && Print(t) == [CLASS_DICT_ENTRY, CLASS_BYTE, CLASS_BYTE, DICT_END]
      && IntendedTypeInfo(t).alignment == 1 && IntendedTypeInfo(t).fixedSize == 2
  {
    var infos := [FixedAligned(1), FixedAligned(1)];
    assert infos[..1] == [FixedAligned(1)] && infos[..1][..0] == [];
    assert End(infos) == 2;
    assert MaxAlignment(infos) == 1;
  }
}
