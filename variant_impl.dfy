/**
 * `ToVariant` and `FromVariant` for Rust's scalars, byte slices and strings
 * (src/no_glib/variant_impl.rs): a scalar is its little-endian image under its one-character
 * type; reading one back demands exactly that type and exactly that many bytes. A signed
 * integer is stored in two's complement, and an `f64` as the image of its bit pattern
 * (`f64::to_le_bytes` is `to_bits().to_le_bytes()`), so it is modelled by those 64 bits.
 */
module VariantImpl {
  import opened Wrappers
  import opened GvdbUtil
  import opened Utf8
  import opened VariantType
  import opened VariantTypeInfo
  import opened VariantValue

  /** The Rust scalar types with a fixed-width image: the integers and `f64`. */
  datatype Scalar = U8 | I16 | U16 | I32 | U32 | I64 | U64 | F64

  /** The type character each scalar is stored under. */
  function TypeChar(k: Scalar): byte {
    match k
    case U8 => CLASS_BYTE
    case I16 => CLASS_INT16
    case U16 => CLASS_UINT16
    case I32 => CLASS_INT32
    case U32 => CLASS_UINT32
    case I64 => CLASS_INT64
    case U64 => CLASS_UINT64
    case F64 => CLASS_DOUBLE
  }

  /** The number of bytes of its image. */
  function Width(k: Scalar): nat {
    match k
    case U8 => 1
    case I16 | U16 => 2
    case I32 | U32 => 4
    case I64 | U64 | F64 => 8
  }

  predicate Signed(k: Scalar) {
    k == I16 || k == I32 || k == I64
  }

  /** The values of k: two's-complement ranges for the signed integers, bit patterns for `f64`. */
  predicate InRange(k: Scalar, x: int) {
    var half: int := Pow256(Width(k)) / 2;
    if Signed(k) then -half <= x < half
    else 0 <= x < Pow256(Width(k))
  }

  /** `to_le_bytes`: a negative value is stored as itself plus 256 to the width. */
  function ToLe(k: Scalar, x: int): (r: bytes)
    requires InRange(k, x)
    ensures |r| == Width(k)
  {
    LeBytes(if x < 0 then x + Pow256(Width(k)) else x, Width(k))
  }

  /** `from_le_bytes`: an image whose top bit is set is negative for a signed integer. */
  function OfLe(k: Scalar, b: bytes): (r: int)
    requires |b| == Width(k)
    ensures InRange(k, r)
  {
    var u := FromLe(b);
    if Signed(k) && u >= Pow256(Width(k)) / 2 then u - Pow256(Width(k)) else u
  }

  /** `ToLe` and `OfLe` are inverse to each other on the values and the images of k. */
  lemma OfLeToLe(k: Scalar, x: int)
    requires InRange(k, x)
    ensures OfLe(k, ToLe(k, x)) == x
  {
    var u := if x < 0 then x + Pow256(Width(k)) else x;
    FromLeOfLeBytes(u, Width(k));
  }

  lemma ToLeOfLe(k: Scalar, b: bytes)
    requires |b| == Width(k)
    ensures ToLe(k, OfLe(k, b)) == b
  {
    LeBytesOfFromLe(b);
  }

  lemma TypeCharIsBasic(k: Scalar)
    ensures IsBasicChar(TypeChar(k)) && TypeInfoOf([TypeChar(k)]) == Some(FixedAligned(Width(k)))
  {
  }

  /** `to_variant` of a scalar: its image under its type; the type always has an info. */
  function ScalarToVariant(k: Scalar, x: int): (r: Option<Variant>)
    requires InRange(k, x)
    ensures r.Some? && r.value.typ == [TypeChar(k)] && |r.value.data| == Width(k)
  {
    TypeCharIsBasic(k);
    FromDataWithType(ToLe(k, x), [TypeChar(k)])
  }

  /** `from_variant` of a scalar: None for another type or another number of bytes. */
  function ScalarFromVariant(k: Scalar, v: Variant): (r: Option<int>)
    ensures r.Some? <==> v.typ == [TypeChar(k)] && |v.data| == Width(k)
    ensures r.Some? ==> InRange(k, r.value)
  {
    if v.typ != [TypeChar(k)] then None
    else if |v.data| != Width(k) then None
    else Some(OfLe(k, v.data))
  }

  /** Every value of a scalar type comes back from its variant. */
  lemma ScalarRoundTrip(k: Scalar, x: int)
    requires InRange(k, x)
    ensures ScalarFromVariant(k, ScalarToVariant(k, x).value) == Some(x)
  {
    OfLeToLe(k, x);
  }

  /** Every variant a scalar can be read from is the variant of that scalar. */
  lemma ScalarFromVariantInverse(k: Scalar, v: Variant)
    requires ScalarFromVariant(k, v).Some?
    ensures ScalarToVariant(k, ScalarFromVariant(k, v).value) == Some(v)
  {
    ToLeOfLe(k, v.data);
  }

  /** `to_variant` of a `bool`: one byte, 1 or 0, under `b`. */
  function BoolToVariant(b: bool): (r: Option<Variant>)
    ensures r.Some? && r.value.typ == [CLASS_BOOLEAN] && |r.value.data| == 1
  {
    assert TypeInfoOf([CLASS_BOOLEAN]).Some?;
    FromDataWithType(LeBytes(if b then 1 else 0, 1), [CLASS_BOOLEAN])
  }

  /** `from_variant` of a `bool`: exactly one byte under `b`, true when it is not 0. */
  function BoolFromVariant(v: Variant): (r: Option<bool>)
    ensures r.Some? <==> v.typ == [CLASS_BOOLEAN] && |v.data| == 1
  {
    if v.typ != [CLASS_BOOLEAN] then None
    else if |v.data| != 1 then None
    else Some(FromLe(v.data) != 0)
  }

  /**
   * Both booleans come back; a boolean read back is the byte's being non-zero, so every
   * byte but 0 and 1 reads as true without being what `to_variant` writes.
   */
  lemma BoolRoundTrip(b: bool, v: Variant)
    ensures BoolFromVariant(BoolToVariant(b).value) == Some(b)
    ensures BoolFromVariant(v).Some? ==> (BoolFromVariant(v).value <==> v.data[0] != 0)
    ensures BoolFromVariant(v).Some? ==> (BoolToVariant(BoolFromVariant(v).value) == Some(v) <==> v.data[0] <= 1)
  {
    FromLeOfLeBytes(if b then 1 else 0, 1);
    if BoolFromVariant(v).Some? {
      assert FromLe(v.data) == v.data[0] by {
        assert v.data[1..] == [];
      }
      var w := BoolToVariant(BoolFromVariant(v).value).value;
      assert w.data == [if v.data[0] != 0 then 1 else 0];
      if v.data[0] <= 1 {
        assert v.data == [v.data[0]];
      }
    }
  }

  /** `to_variant` of bytes: the bytes themselves as an `ay`. */
  function BytesToVariant(bs: bytes): (r: Option<Variant>)
    ensures r == Some(Variant([CLASS_ARRAY, CLASS_BYTE], bs))
  {
    SingleCharElements(CLASS_BYTE);
    FromDataWithType(bs, [CLASS_ARRAY, CLASS_BYTE])
  }

  /** The variants of the bytes of bs, one `y` each. */
  function ByteVariants(bs: bytes): (r: seq<Variant>)
    ensures |r| == |bs|
  {
    seq(|bs|, i requires 0 <= i < |bs| => ScalarToVariant(U8, bs[i]).value)
  }

  lemma {:induction false} ConcatOfBytes(bs: bytes)
    ensures Concat(Datas(ByteVariants(bs))) == bs
  {
    if bs != [] {
      ConcatOfBytes(bs[1..]);
      var vs := ByteVariants(bs);
      assert ByteVariants(bs[1..]) == vs[1..];
      assert Datas(vs)[1..] == Datas(vs[1..]);
      assert vs[0].data == [bs[0]] by {
        assert ToLe(U8, bs[0]) == LeBytes(bs[0], 1);
      }
    }
  }

  /**
   * Byte slices are arrays of bytes: `to_variant` of bytes is the array built from the
   * bytes' own variants, which has one child per byte, and child i reads back as byte i.
   */
  lemma BytesAreByteArray(bs: bytes)
    ensures BytesToVariant(bs) == ArrayOf([CLASS_BYTE], ByteVariants(bs))
    ensures NChildren(BytesToVariant(bs).value) == Some(|bs|)
    ensures forall i | 0 <= i < |bs| ::
      ChildValue(BytesToVariant(bs).value, i).Some?
      && ScalarFromVariant(U8, ChildValue(BytesToVariant(bs).value, i).value) == Some(bs[i] as int)
  {
    var y: bytes := [CLASS_BYTE];
    var vs := ByteVariants(bs);
    SingleCharElements(CLASS_BYTE);
    TypeCharIsBasic(U8);
    assert forall j | 0 <= j < |vs| :: vs[j].typ == y && |vs[j].data| == TypeInfoOf(y).value.fixedSize;
    ArrayOfTyped(y, vs);
    ConcatOfBytes(bs);
    assert ArrayData(Datas(vs), false) == bs;
    assert [CLASS_ARRAY] + y == [CLASS_ARRAY, CLASS_BYTE];
    FixedArrayRoundTrip(y, vs, false);
    forall i | 0 <= i < |bs|
      ensures ScalarFromVariant(U8, vs[i]) == Some(bs[i] as int)
    {
      ScalarRoundTrip(U8, bs[i]);
    }
  }

  /** `to_variant` of a `&str`: `new_string`, which fails on a zero byte. */
  function StrToVariant(s: bytes): (r: Option<Variant>)
    requires ValidUtf8(s)
    ensures r.Some? ==> r.value.typ == [CLASS_STRING]
  {
    StrOfNewString(s);
    NewString(s)
  }

  /** `from_variant` of a `String`: type exactly `s`, then `str`. */
  function StringFromVariant(v: Variant): (r: Option<bytes>)
    ensures r.Some? ==> v.typ == [CLASS_STRING] && ValidUtf8(r.value)
  {
    if v.typ != [CLASS_STRING] then None else Str(v)
  }

  /** A string without zero bytes comes back from its variant. */
  lemma StringRoundTrip(s: bytes)
    requires ValidUtf8(s) && forall i | 0 <= i < |s| :: s[i] != 0
    ensures StrToVariant(s).Some? && StringFromVariant(StrToVariant(s).value) == Some(s)
  {
    StrOfNewString(s);
  }
}
