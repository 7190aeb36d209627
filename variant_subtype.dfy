/**
 * `VariantTy::is_subtype_of` (src/no_glib/variant_type.rs): walks the supertype string one
 * character at a time; where the candidate has a different character there, a wildcard of
 * the supertype (`*` any type, `?` any basic type, `r` any tuple) may stand for the whole
 * type at the head of the candidate, which is then skipped with `string_length`.
 *
 * The code's `?` check asks `is_basic` of everything left of the candidate, which is one
 * character long only when the basic type is the candidate's last; and the skip inherits
 * `string_length`'s miscount of dict entries. The intended walk fixes both and is proved
 * equal to the subtype relation on types.
 */
module VariantSubtype {
  import opened Wrappers
  import opened GvdbUtil
  import opened VariantType
  import opened VariantTypeLength

  /** Whether the supertype character w may stand for the type at the head of ty. */
  predicate WildcardAdmits(w: byte, ty: bytes, intended: bool)
    requires |ty| > 0
  {
    if w == CLASS_ANY_TUPLE then IsTuple(ty)
    else if w == CLASS_ANY_BASIC then (if intended then IsBasicChar(ty[0]) else IsBasic(ty))
    else w == CLASS_ANY
  }

  /**
   * The walk of `is_subtype_of` over the rest `sup` of the supertype, `ty` being the rest of
   * the candidate. With `intended`, `?` checks the head character alone and the skip uses
   * the intended length. None where the code indexes past the end of the candidate.
   */
  function Walk(ty: bytes, sup: bytes, intended: bool): Option<bool>
    decreases |sup|
  {
    if |sup| == 0 then Some(true)
    else if |ty| == 0 then None
    else if ty[0] == sup[0] then Walk(ty[1..], sup[1..], intended)
    else if ty[0] == TUPLE_END then Some(false)
    else if !WildcardAdmits(sup[0], ty, intended) then Some(false)
    else
      match Scan(ty, 0, 0, intended)
      case None => None
      case Some(n) => Walk(ty[n..], sup[1..], intended)
  }

  /** `is_subtype_of` as the code computes it. */
  function Subtype(ty: bytes, sup: bytes): Option<bool> {
    Walk(ty, sup, false)
  }

  /** `is_subtype_of` as evidently meant. */
  function IntendedSubtype(ty: bytes, sup: bytes): Option<bool> {
    Walk(ty, sup, true)
  }

  /** `is_subtype_of`: the loop over the supertype's characters. */
  method IsSubtypeOf(ty: bytes, sup: bytes) returns (r: Option<bool>)
    ensures r == Subtype(ty, sup)
  {
    var typeString := ty;
    for i := 0 to |sup|
      invariant Walk(typeString, sup[i..], false) == Subtype(ty, sup)
    {
      var supertypeChar := sup[i];
      assert sup[i..][1..] == sup[i + 1..];
      if |typeString| == 0 {
        return None;
      }
      if typeString[0] == supertypeChar {
        typeString := typeString[1..];
      } else if typeString[0] == TUPLE_END {
        return Some(false);
      } else {
        if supertypeChar == CLASS_ANY_TUPLE {
          if !IsTuple(typeString) {
            return Some(false);
          }
        } else if supertypeChar == CLASS_ANY_BASIC {
          if !IsBasic(typeString) {
            return Some(false);
          }
        } else if supertypeChar != CLASS_ANY {
          return Some(false);
        }
        var length := StringLengthInner(typeString);
        if length.None? {
          return None;
        }
        typeString := typeString[length.value..];
      }
    }
    return Some(true);
  }

  // ---------------------------------------------------------------------------------------
  // The subtype relation on types
  // ---------------------------------------------------------------------------------------

  /**
   * sup admits t: `*` admits every type, `?` every basic type and `r` every tuple (and
   * `r`); otherwise t has sup's constructor and sup admits t's parts, a `?` key admitting
   * every key.
   */
  predicate Admits(sup: Type, t: Type)
    decreases sup
  {
    match sup
    case Single(d) =>
      if d == CLASS_ANY then true
      else if d == CLASS_ANY_BASIC then t.Single? && IsBasicChar(t.c)
      else if d == CLASS_ANY_TUPLE then t.Tuple? || t == Single(CLASS_ANY_TUPLE)
      else t == Single(d)
    case Tuple(ms) => t.Tuple? && AdmitsAll(ms, t.members)
    case DictEntry(k, v) => t.DictEntry? && (t.key == k || k == CLASS_ANY_BASIC) && Admits(v, t.value)
    case Maybe(e) => t.Maybe? && Admits(e, t.element)
    case Array(e) => t.Array? && Admits(e, t.element)
  }

  /** The members ms admit the members ns one by one, and there are as many of each. */
  predicate AdmitsAll(ms: seq<Type>, ns: seq<Type>)
    decreases ms
  {
    |ms| == |ns| && (ms != [] ==> Admits(ms[0], ns[0]) && AdmitsAll(ms[1..], ns[1..]))
  }

  /** The first character of a printed type. */
  function Head(t: Type): byte {
    match t
    case Single(c) => c
    case Tuple(_) => CLASS_TUPLE
    case DictEntry(_, _) => CLASS_DICT_ENTRY
    case Maybe(_) => CLASS_MAYBE
    case Array(_) => CLASS_ARRAY
  }

  lemma HeadOfPrinted(t: Type, rest: bytes)
    ensures (Print(t) + rest)[0] == Head(t)
  {
  }

  lemma SingleUnspelled(c: byte, rest: bytes)
    ensures (Print(Single(c)) + rest)[0] == c && (Print(Single(c)) + rest)[1..] == rest
  {
  }

  /** A wildcard that admits the type at the head skips all of it, and only it. */
  lemma WildcardSkips(t: Type, w: byte, rt: bytes, rs: bytes)
    requires WellFormed(t) && Head(t) != w && WildcardAdmits(w, Print(t) + rt, true)
    ensures Walk(Print(t) + rt, [w] + rs, true) == Walk(rt, rs, true)
  {
    HeadOfPrinted(t, rt);
    IntendedStringLengthOfPrinted(t, rt);
    assert (Print(t) + rt)[|Print(t)|..] == rt;
    assert ([w] + rs)[1..] == rs;
  }

  lemma WalkSingle(t: Type, d: byte, rt: bytes, rs: bytes)
    requires WellFormed(t) && IsSingleCharType(d)
    ensures Walk(Print(t) + rt, Print(Single(d)) + rs, true)
         == if Admits(Single(d), t) then Walk(rt, rs, true) else Some(false)
  {
    HeadOfPrinted(t, rt);
    SingleUnspelled(d, rs);
    if Head(t) == d {
      assert t == Single(d);
      SingleUnspelled(d, rt);
    } else if WildcardAdmits(d, Print(t) + rt, true) {
      WildcardSkips(t, d, rt, rs);
    }
  }

  lemma {:induction false} WalkTuple(t: Type, ms: seq<Type>, rt: bytes, rs: bytes)
    requires WellFormed(t) && AllWellFormed(ms)
    ensures Walk(Print(t) + rt, Print(Tuple(ms)) + rs, true)
         == if Admits(Tuple(ms), t) then Walk(rt, rs, true) else Some(false)
    decreases Tuple(ms), 1
  {
    HeadOfPrinted(t, rt);
    TupleUnspelled(ms, rs);
    if t.Tuple? {
      TupleUnspelled(t.members, rt);
      WalkMembers(t.members, ms, rt, rs);
    }
  }

  lemma {:induction false} WalkMembers(ns: seq<Type>, ms: seq<Type>, rt: bytes, rs: bytes)
    requires AllWellFormed(ns) && AllWellFormed(ms)
    ensures Walk(PrintAll(ns) + [TUPLE_END] + rt, PrintAll(ms) + [TUPLE_END] + rs, true)
         == if AdmitsAll(ms, ns) then Walk(rt, rs, true) else Some(false)
    decreases ms, 0
  {
    if ns == [] && ms == [] {
      assert PrintAll(ns) + [TUPLE_END] + rt == [TUPLE_END] + rt;
      assert PrintAll(ms) + [TUPLE_END] + rs == [TUPLE_END] + rs;
    } else if ns == [] {
      MemberUnspelled(ms, rs);
      HeadOfPrinted(ms[0], PrintAll(ms[1..]) + [TUPLE_END] + rs);
      assert PrintAll(ns) + [TUPLE_END] + rt == [TUPLE_END] + rt;
    } else if ms == [] {
      MemberUnspelled(ns, rt);
      HeadOfPrinted(ns[0], PrintAll(ns[1..]) + [TUPLE_END] + rt);
      assert PrintAll(ms) + [TUPLE_END] + rs == [TUPLE_END] + rs;
    } else {
      MemberUnspelled(ns, rt);
      MemberUnspelled(ms, rs);
      WalkType(ns[0], ms[0], PrintAll(ns[1..]) + [TUPLE_END] + rt, PrintAll(ms[1..]) + [TUPLE_END] + rs);
      if Admits(ms[0], ns[0]) {
        WalkMembers(ns[1..], ms[1..], rt, rs);
      }
    }
  }

  /** After the `{` of a dict entry: the key, then the value and the `}`. */
  lemma WalkKey(k1: byte, k: byte, after1: bytes, after: bytes)
    requires IsBasicChar(k1) && IsBasicChar(k)
    ensures Walk([k1] + after1, [k] + after, true)
         == if k1 == k || k == CLASS_ANY_BASIC then Walk(after1, after, true) else Some(false)
  {
    assert ([k1] + after1)[1..] == after1;
    assert ([k] + after)[1..] == after;
  }

  lemma {:induction false} WalkDictEntry(t: Type, k: byte, v: Type, rt: bytes, rs: bytes)
    requires WellFormed(t) && IsBasicChar(k) && WellFormed(v)
    ensures Walk(Print(t) + rt, Print(DictEntry(k, v)) + rs, true)
         == if Admits(DictEntry(k, v), t) then Walk(rt, rs, true) else Some(false)
    decreases DictEntry(k, v), 1
  {
    HeadOfPrinted(t, rt);
    DictEntryUnspelled(k, v, rs);
    if t.DictEntry? {
      var ty := Print(t) + rt;
      var sup := Print(DictEntry(k, v)) + rs;
      DictEntryUnspelled(t.key, t.value, rt);
      assert ty[1..] == [t.key] + (Print(t.value) + ([DICT_END] + rt));
      assert sup[1..] == [k] + (Print(v) + ([DICT_END] + rs));
      WalkKey(t.key, k, Print(t.value) + ([DICT_END] + rt), Print(v) + ([DICT_END] + rs));
      WalkType(t.value, v, [DICT_END] + rt, [DICT_END] + rs);
      assert ([DICT_END] + rt)[1..] == rt;
      assert ([DICT_END] + rs)[1..] == rs;
    }
  }

  lemma {:induction false} WalkElement(t: Type, sup: Type, rt: bytes, rs: bytes)
    requires WellFormed(t) && WellFormed(sup) && (sup.Maybe? || sup.Array?)
    ensures Walk(Print(t) + rt, Print(sup) + rs, true)
         == if Admits(sup, t) then Walk(rt, rs, true) else Some(false)
    decreases sup, 1
  {
    HeadOfPrinted(t, rt);
    ElementUnspelled(sup, rs);
    if Head(t) == Head(sup) {
      ElementUnspelled(t, rt);
      WalkType(t.element, sup.element, rt, rs);
    }
  }

  /** The intended walk over two printed types decides whether the second admits the first. */
  lemma {:induction false} WalkType(t: Type, sup: Type, rt: bytes, rs: bytes)
    requires WellFormed(t) && WellFormed(sup)
    ensures Walk(Print(t) + rt, Print(sup) + rs, true)
         == if Admits(sup, t) then Walk(rt, rs, true) else Some(false)
    decreases sup, 2
  {
    match sup
    case Single(d) => WalkSingle(t, d, rt, rs);
    case Tuple(ms) => WalkTuple(t, ms, rt, rs);
    case DictEntry(k, v) => WalkDictEntry(t, k, v, rt, rs);
    case Maybe(_) => WalkElement(t, sup, rt, rs);
    case Array(_) => WalkElement(t, sup, rt, rs);
  }

  /** The intended `is_subtype_of` is the subtype relation on types. */
  lemma IntendedSubtypeIsAdmits(t: Type, sup: Type)
    requires WellFormed(t) && WellFormed(sup)
    ensures IntendedSubtype(Print(t), Print(sup)) == Some(Admits(sup, t))
  {
    WalkType(t, sup, [], []);
    assert Print(t) + [] == Print(t) && Print(sup) + [] == Print(sup);
  }

  /** Every type string is a subtype of itself, as written and as intended. */
  lemma {:induction false} SubtypeReflexive(s: bytes, intended: bool)
    ensures Walk(s, s, intended) == Some(true)
    decreases |s|
  {
    if |s| > 0 {
      SubtypeReflexive(s[1..], intended);
    }
  }

  lemma {:induction false} AdmitsReflexive(t: Type)
    ensures Admits(t, t)
    decreases t, 1
  {
    match t
    case Single(_) =>
    case Tuple(ms) => AdmitsAllReflexive(ms);
    case DictEntry(_, v) => AdmitsReflexive(v);
    case Maybe(e) => AdmitsReflexive(e);
    case Array(e) => AdmitsReflexive(e);
  }

  lemma {:induction false} AdmitsAllReflexive(ms: seq<Type>)
    ensures AdmitsAll(ms, ms)
    decreases ms, 0
  {
    if ms != [] {
      AdmitsReflexive(ms[0]);
      AdmitsAllReflexive(ms[1..]);
    }
  }

  /** The subtype relation is transitive. */
  lemma {:induction false} AdmitsTransitive(a: Type, b: Type, c: Type)
    requires Admits(a, b) && Admits(b, c)
    ensures Admits(a, c)
    decreases a, 1
  {
    match a
    case Single(_) =>
    case Tuple(ms) => AdmitsAllTransitive(ms, b.members, c.members);
    case DictEntry(_, v) => AdmitsTransitive(v, b.value, c.value);
    case Maybe(e) => AdmitsTransitive(e, b.element, c.element);
    case Array(e) => AdmitsTransitive(e, b.element, c.element);
  }

  lemma {:induction false} AdmitsAllTransitive(ms: seq<Type>, ns: seq<Type>, ps: seq<Type>)
    requires AdmitsAll(ms, ns) && AdmitsAll(ns, ps)
    ensures AdmitsAll(ms, ps)
    decreases ms, 0
  {
    if ms != [] {
      AdmitsTransitive(ms[0], ns[0], ps[0]);
      AdmitsAllTransitive(ms[1..], ns[1..], ps[1..]);
    }
  }

  /**
   * Every type is a subtype of `*`, as written too: `*` skips whatever length
   * `string_length` gives, and nothing follows it to compare.
   */
  lemma AnyAdmitsPrinted(t: Type, intended: bool)
    requires WellFormed(t)
    ensures Walk(Print(t), [CLASS_ANY], intended) == Some(true)
  {
    HeadOfPrinted(t, []);
    assert Print(t) + [] == Print(t);
    if t != Single(CLASS_ANY) {
      if intended {
        IntendedStringLengthOfPrinted(t, []);
      } else {
        WrittenStringLengthEnds(t, []);
      }
    }
  }

  // ---------------------------------------------------------------------------------------
  // The unit-test cases, and where the code departs from the relation
  // ---------------------------------------------------------------------------------------

  /** Where both walks have the same character, it is passed over. */
  lemma WalkSame(c: byte, ty: bytes, sup: bytes, intended: bool)
    ensures Walk([c] + ty, [c] + sup, intended) == Walk(ty, sup, intended)
  {
    assert ([c] + ty)[1..] == ty && ([c] + sup)[1..] == sup;
  }

  /** `"ay"` is a subtype of `"a?"`, and `"as"` of `"a*"`. */
  lemma ArraySubtypeExamples()
    ensures Subtype([CLASS_ARRAY, CLASS_BYTE], [CLASS_ARRAY, CLASS_ANY_BASIC]) == Some(true)
    ensures Subtype([CLASS_ARRAY, CLASS_STRING], [CLASS_ARRAY, CLASS_ANY]) == Some(true)
  {
    assert Scan([CLASS_BYTE], 0, 0, false) == Some(1);
    assert Scan([CLASS_STRING], 0, 0, false) == Some(1);
    WalkSame(CLASS_ARRAY, [CLASS_BYTE], [CLASS_ANY_BASIC], false);
    WalkSame(CLASS_ARRAY, [CLASS_STRING], [CLASS_ANY], false);
    assert [CLASS_ARRAY] + [CLASS_BYTE] == [CLASS_ARRAY, CLASS_BYTE];
    assert [CLASS_ARRAY] + [CLASS_ANY_BASIC] == [CLASS_ARRAY, CLASS_ANY_BASIC];
    assert [CLASS_ARRAY] + [CLASS_STRING] == [CLASS_ARRAY, CLASS_STRING];
    assert [CLASS_ARRAY] + [CLASS_ANY] == [CLASS_ARRAY, CLASS_ANY];
  }

  /** `"s"` is a subtype of `"?"`, and `"(uu)"` of `"r"`. */
  lemma WildcardSubtypeExamples()
    ensures Subtype([CLASS_STRING], [CLASS_ANY_BASIC]) == Some(true)
    ensures Subtype([CLASS_TUPLE, CLASS_UINT32, CLASS_UINT32, TUPLE_END], [CLASS_ANY_TUPLE]) == Some(true)
  {
    assert Scan([CLASS_STRING], 0, 0, false) == Some(1);
    var uu := Tuple([Single(CLASS_UINT32), Single(CLASS_UINT32)]);
    assert Print(uu) == [CLASS_TUPLE, CLASS_UINT32, CLASS_UINT32, TUPLE_END] by {
      assert PrintAll(uu.members) == [CLASS_UINT32] + ([CLASS_UINT32] + PrintAll([]));
    }
    assert Scan(Print(uu), 0, 0, false) == Some(4) by {
      assert WellFormed(uu) && DictFree(uu);
      StringLengthOfPrinted(uu, []);
      assert Print(uu) + [] == Print(uu);
    }
    var ty := [CLASS_TUPLE, CLASS_UINT32, CLASS_UINT32, TUPLE_END];
    assert ty == Print(uu);
    assert ty[4..] == [] && [CLASS_ANY_TUPLE][1..] == [];
    assert IsTuple(ty) && ty[0] != CLASS_ANY_TUPLE && ty[0] != TUPLE_END;
    assert Walk(ty, [CLASS_ANY_TUPLE], false) == Walk([], [], false);
    assert [CLASS_STRING][1..] == [] && [CLASS_ANY_BASIC][1..] == [];
    assert IsBasic([CLASS_STRING]);
    assert Walk([CLASS_STRING], [CLASS_ANY_BASIC], false) == Walk([], [], false);
  }

  /** `"ay"` and `"mu"` are not subtypes of `"?"`. */
  lemma ElementNotBasicExamples()
    ensures Subtype([CLASS_ARRAY, CLASS_BYTE], [CLASS_ANY_BASIC]) == Some(false)
    ensures Subtype([CLASS_MAYBE, CLASS_UINT32], [CLASS_ANY_BASIC]) == Some(false)
  {
    assert !IsBasic([CLASS_ARRAY, CLASS_BYTE]) && !IsBasic([CLASS_MAYBE, CLASS_UINT32]);
  }

  /** `"()"` and `"{uu}"` are not subtypes of `"?"`. */
  lemma BracketNotBasicExamples()
    ensures Subtype([CLASS_TUPLE, TUPLE_END], [CLASS_ANY_BASIC]) == Some(false)
    ensures Subtype([CLASS_DICT_ENTRY, CLASS_UINT32, CLASS_UINT32, DICT_END], [CLASS_ANY_BASIC]) == Some(false)
  {
    assert !IsBasic([CLASS_TUPLE, TUPLE_END]);
    assert !IsBasic([CLASS_DICT_ENTRY, CLASS_UINT32, CLASS_UINT32, DICT_END]);
  }

  /** `"u"` is not a subtype of `"au"`, nor `"(au)"` of `"(auu)"`. */
  lemma NotSubtypeExamples()
    ensures Subtype([CLASS_UINT32], [CLASS_ARRAY, CLASS_UINT32]) == Some(false)
    ensures Subtype([CLASS_TUPLE, CLASS_ARRAY, CLASS_UINT32, TUPLE_END],
                    [CLASS_TUPLE, CLASS_ARRAY, CLASS_UINT32, CLASS_UINT32, TUPLE_END]) == Some(false)
  {
    var rt := [CLASS_ARRAY, CLASS_UINT32, TUPLE_END];
    var rs := [CLASS_ARRAY, CLASS_UINT32, CLASS_UINT32, TUPLE_END];
    WalkSame(CLASS_TUPLE, rt, rs, false);
    WalkSame(CLASS_ARRAY, rt[1..], rs[1..], false);
    WalkSame(CLASS_UINT32, rt[2..], rs[2..], false);
    assert [CLASS_TUPLE] + rt == [CLASS_TUPLE, CLASS_ARRAY, CLASS_UINT32, TUPLE_END];
    assert [CLASS_TUPLE] + rs == [CLASS_TUPLE, CLASS_ARRAY, CLASS_UINT32, CLASS_UINT32, TUPLE_END];
    assert [CLASS_ARRAY] + rt[1..] == rt && [CLASS_ARRAY] + rs[1..] == rs;
    assert [CLASS_UINT32] + rt[2..] == rt[1..] && [CLASS_UINT32] + rs[2..] == rs[1..];
  }

  /** `"(y)"` is not a subtype of `"(?)"` as written, though `?` admits `y`. */
  lemma BasicWildcardInsideTuple()
    ensures Subtype([CLASS_TUPLE, CLASS_BYTE, TUPLE_END], [CLASS_TUPLE, CLASS_ANY_BASIC, TUPLE_END]) == Some(false)
    ensures Admits(Tuple([Single(CLASS_ANY_BASIC)]), Tuple([Single(CLASS_BYTE)]))
    ensures IntendedSubtype([CLASS_TUPLE, CLASS_BYTE, TUPLE_END], [CLASS_TUPLE, CLASS_ANY_BASIC, TUPLE_END]) == Some(true)
  {
    WalkSame(CLASS_TUPLE, [CLASS_BYTE, TUPLE_END], [CLASS_ANY_BASIC, TUPLE_END], false);
    assert [CLASS_TUPLE] + [CLASS_BYTE, TUPLE_END] == [CLASS_TUPLE, CLASS_BYTE, TUPLE_END];
    assert [CLASS_TUPLE] + [CLASS_ANY_BASIC, TUPLE_END] == [CLASS_TUPLE, CLASS_ANY_BASIC, TUPLE_END];
    assert !IsBasic([CLASS_BYTE, TUPLE_END]);
    var t := Tuple([Single(CLASS_BYTE)]);
    var sup := Tuple([Single(CLASS_ANY_BASIC)]);
    assert Print(t) == [CLASS_TUPLE, CLASS_BYTE, TUPLE_END] by {
      assert PrintAll(t.members) == Print(Single(CLASS_BYTE)) + PrintAll([]);
    }
    assert Print(sup) == [CLASS_TUPLE, CLASS_ANY_BASIC, TUPLE_END] by {
      assert PrintAll(sup.members) == Print(Single(CLASS_ANY_BASIC)) + PrintAll([]);
    }
    assert AdmitsAll(sup.members, t.members) by {
      assert AdmitsAll(sup.members[1..], t.members[1..]);
    }
    IntendedSubtypeIsAdmits(t, sup);
  }

  /** As written, the skip for `*` over `"{uu}u)"` stops after the `{`. */
  lemma DictEntrySkippedShort()
    ensures Walk([CLASS_DICT_ENTRY, CLASS_UINT32, CLASS_UINT32, DICT_END, CLASS_UINT32, TUPLE_END],
                 [CLASS_ANY, CLASS_UINT32, TUPLE_END], false) == Some(false)
  {
    var ty := [CLASS_DICT_ENTRY, CLASS_UINT32, CLASS_UINT32, DICT_END, CLASS_UINT32, TUPLE_END];
    assert Scan(ty, 0, 0, false) == Some(1);
    assert ty[1..] == [CLASS_UINT32] + [CLASS_UINT32, DICT_END, CLASS_UINT32, TUPLE_END];
    assert [CLASS_ANY, CLASS_UINT32, TUPLE_END][1..] == [CLASS_UINT32] + [TUPLE_END];
    WalkSame(CLASS_UINT32, [CLASS_UINT32, DICT_END, CLASS_UINT32, TUPLE_END], [TUPLE_END], false);
  }

  /** `"({uu}u)"` is not a subtype of `"(*u)"` as written, though `*` admits `{uu}`. */
  lemma DictEntryUnderWildcard()
    ensures Subtype([CLASS_TUPLE, CLASS_DICT_ENTRY, CLASS_UINT32, CLASS_UINT32, DICT_END, CLASS_UINT32, TUPLE_END],
                    [CLASS_TUPLE, CLASS_ANY, CLASS_UINT32, TUPLE_END]) == Some(false)
    ensures IntendedSubtype([CLASS_TUPLE, CLASS_DICT_ENTRY, CLASS_UINT32, CLASS_UINT32, DICT_END, CLASS_UINT32, TUPLE_END],
                            [CLASS_TUPLE, CLASS_ANY, CLASS_UINT32, TUPLE_END]) == Some(true)
  {
    var rt := [CLASS_DICT_ENTRY, CLASS_UINT32, CLASS_UINT32, DICT_END, CLASS_UINT32, TUPLE_END];
    var rs := [CLASS_ANY, CLASS_UINT32, TUPLE_END];
    WalkSame(CLASS_TUPLE, rt, rs, false);
    assert [CLASS_TUPLE] + rt == [CLASS_TUPLE, CLASS_DICT_ENTRY, CLASS_UINT32, CLASS_UINT32, DICT_END, CLASS_UINT32, TUPLE_END];
    assert [CLASS_TUPLE] + rs == [CLASS_TUPLE, CLASS_ANY, CLASS_UINT32, TUPLE_END];
    DictEntrySkippedShort();
    DictEntryUnderWildcardIntended();
  }

  lemma DictEntryUnderWildcardIntended()
    ensures IntendedSubtype([CLASS_TUPLE, CLASS_DICT_ENTRY, CLASS_UINT32, CLASS_UINT32, DICT_END, CLASS_UINT32, TUPLE_END],
                            [CLASS_TUPLE, CLASS_ANY, CLASS_UINT32, TUPLE_END]) == Some(true)
  {
    var u := Single(CLASS_UINT32);
    var t := Tuple([DictEntry(CLASS_UINT32, u), u]);
    var sup := Tuple([Single(CLASS_ANY), u]);
    assert Print(t) == [CLASS_TUPLE, CLASS_DICT_ENTRY, CLASS_UINT32, CLASS_UINT32, DICT_END, CLASS_UINT32, TUPLE_END] by {
      assert t.members[1..] == [u] && t.members[1..][1..] == [];
      assert PrintAll(t.members) == Print(DictEntry(CLASS_UINT32, u)) + (Print(u) + PrintAll([]));
    }
    assert Print(sup) == [CLASS_TUPLE, CLASS_ANY, CLASS_UINT32, TUPLE_END] by {
      assert sup.members[1..] == [u] && sup.members[1..][1..] == [];
      assert PrintAll(sup.members) == Print(Single(CLASS_ANY)) + (Print(u) + PrintAll([]));
    }
    assert AdmitsAll(sup.members, t.members) by {
      assert sup.members[1..] == [u] && t.members[1..] == [u];
      AdmitsAllReflexive([u]);
    }
    IntendedSubtypeIsAdmits(t, sup);
  }
}
