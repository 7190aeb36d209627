/**
 * GVariant type strings as the GLib-free reimplementation handles them
 * (src/no_glib/variant_type.rs): the type characters, the validator with its nesting
 * budget, the grammar it accepts, the character-class queries and the constructors of
 * array, maybe and tuple types.
 *
 * A type string is a byte sequence. Alongside the byte-level functions that follow the
 * code, `Type` is the tree a valid string spells; `Print` writes it back out.
 */
module VariantType {
  import opened Wrappers
  import opened GvdbUtil

  // The type characters (`VariantTy::CLASS_*`), as the bytes of their ASCII letters.
  const CLASS_BOOLEAN: byte := 98      // 'b'
  const CLASS_BYTE: byte := 121        // 'y'
  const CLASS_INT16: byte := 110       // 'n'
  const CLASS_UINT16: byte := 113      // 'q'
  const CLASS_INT32: byte := 105       // 'i'
  const CLASS_UINT32: byte := 117      // 'u'
  const CLASS_INT64: byte := 120       // 'x'
  const CLASS_UINT64: byte := 116      // 't'
  const CLASS_DOUBLE: byte := 100      // 'd'
  const CLASS_STRING: byte := 115      // 's'
  const CLASS_VARIANT: byte := 118     // 'v'
  const CLASS_MAYBE: byte := 109       // 'm'
  const CLASS_ARRAY: byte := 97        // 'a'
  const CLASS_TUPLE: byte := 40        // '('
  const TUPLE_END: byte := 41          // ')'
  const CLASS_DICT_ENTRY: byte := 123  // '{'
  const DICT_END: byte := 125          // '}'
  const CLASS_ANY_TUPLE: byte := 114   // 'r'
  const CLASS_ANY_BASIC: byte := 63    // '?'
  const CLASS_ANY: byte := 42          // '*'

  /** The nesting budget the validator starts with. */
  const DEPTH_LIMIT: nat := 128

  /** The basic type characters, `?` included (`is_basic_char`). */
  predicate IsBasicChar(c: byte) {
    c == CLASS_BOOLEAN || c == CLASS_BYTE || c == CLASS_INT16 || c == CLASS_UINT16
    || c == CLASS_INT32 || c == CLASS_UINT32 || c == CLASS_INT64 || c == CLASS_UINT64
    || c == CLASS_DOUBLE || c == CLASS_STRING || c == CLASS_ANY_BASIC
  }

  /** The characters that are a complete type on their own: the basic ones, `v`, `r` and `*`. */
  predicate IsSingleCharType(c: byte) {
    IsBasicChar(c) || c == CLASS_VARIANT || c == CLASS_ANY_TUPLE || c == CLASS_ANY
  }

  /** The abstract syntax of a type string. */
  datatype Type =
    | Single(c: byte)
    | Tuple(members: seq<Type>)
    | DictEntry(key: byte, value: Type)
    | Maybe(element: Type)
    | Array(element: Type)

  predicate WellFormed(t: Type) {
    match t
    case Single(c) => IsSingleCharType(c)
    case Tuple(ms) => AllWellFormed(ms)
    case DictEntry(k, v) => IsBasicChar(k) && WellFormed(v)
    case Maybe(e) => WellFormed(e)
    case Array(e) => WellFormed(e)
  }

  predicate AllWellFormed(ms: seq<Type>) {
    forall i | 0 <= i < |ms| :: WellFormed(ms[i])
  }

  /** The type string that spells t. */
  function Print(t: Type): (r: bytes)
    ensures |r| > 0
  {
    match t
    case Single(c) => [c]
    case Tuple(ms) => [CLASS_TUPLE] + PrintAll(ms) + [TUPLE_END]
    case DictEntry(k, v) => [CLASS_DICT_ENTRY, k] + Print(v) + [DICT_END]
    case Maybe(e) => [CLASS_MAYBE] + Print(e)
    case Array(e) => [CLASS_ARRAY] + Print(e)
  }

  /** The type strings of ms, one after the other. */
  function PrintAll(ms: seq<Type>): bytes {
    if ms == [] then [] else Print(ms[0]) + PrintAll(ms[1..])
  }

  function Max(a: nat, b: nat): nat { if a < b then b else a }

  /** How many levels of the validator's budget t takes: one per type character that opens a type. */
  function Depth(t: Type): nat {
    match t
    case Single(_) => 1
    case Tuple(ms) => 1 + MaxDepth(ms)
    case DictEntry(_, v) => 1 + Depth(v)
    case Maybe(e) => 1 + Depth(e)
    case Array(e) => 1 + Depth(e)
  }

  function MaxDepth(ms: seq<Type>): nat {
    if ms == [] then 0 else Max(Depth(ms[0]), MaxDepth(ms[1..]))
  }

  // ---------------------------------------------------------------------------------------
  // The validator (`type_string_is_valid_inner`, `type_string_is_valid`)
  // ---------------------------------------------------------------------------------------

  /** What the validator does with the character at the head of a type. */
  datatype Opening = Complete | OpensTuple | OpensDictEntry | OpensElement | Unknown

  function OpeningOf(c: byte): (r: Opening)
    ensures r == Complete <==> IsSingleCharType(c)
    ensures r == OpensTuple <==> c == CLASS_TUPLE
    ensures r == OpensDictEntry <==> c == CLASS_DICT_ENTRY
    ensures r == OpensElement <==> c == CLASS_MAYBE || c == CLASS_ARRAY
  {
    if IsSingleCharType(c) then Complete
    else if c == CLASS_TUPLE then OpensTuple
    else if c == CLASS_DICT_ENTRY then OpensDictEntry
    else if c == CLASS_MAYBE || c == CLASS_ARRAY then OpensElement
    else Unknown
  }

  /**
   * What is left of s once one complete type has been consumed from its head within the
   * nesting budget `depth`; None where the validator gives up (an unknown character, a
   * missing closing bracket, a dict entry whose key is not basic, or the budget spent).
   */
  function ValidPrefix(s: bytes, depth: nat): (r: Option<bytes>)
    ensures r.Some? ==> |r.value| < |s| && r.value == s[|s| - |r.value|..]
    decreases depth, |s|, 0
  {
    if depth == 0 || |s| == 0 then None
    else
      match OpeningOf(s[0])
      case Complete => Some(s[1..])
      case OpensTuple => TupleMembers(s[1..], depth - 1)
      case OpensDictEntry => DictEntryRest(s[1..], depth - 1)
      case OpensElement => ValidPrefix(s[1..], depth - 1)
      case Unknown => None
  }

  /** The member types of a tuple up to and including its `)`, each within the budget `depth`. */
  function TupleMembers(s: bytes, depth: nat): (r: Option<bytes>)
    ensures r.Some? ==> |r.value| < |s| && r.value == s[|s| - |r.value|..]
    decreases depth, |s|, 1
  {
    if |s| == 0 then None
    else if s[0] == TUPLE_END then Some(s[1..])
    else
      match ValidPrefix(s, depth)
      case None => None
      case Some(after) => TupleMembers(after, depth)
  }

  /** A dict entry after its `{`: a basic key character, a value type within `depth`, then `}`. */
  function DictEntryRest(s: bytes, depth: nat): (r: Option<bytes>)
    ensures r.Some? ==> |r.value| < |s| && r.value == s[|s| - |r.value|..]
    decreases depth, |s|, 1
  {
    if |s| == 0 || !IsBasicChar(s[0]) then None
    else
      match ValidPrefix(s[1..], depth)
      case None => None
      case Some(after) => if |after| == 0 || after[0] != DICT_END then None else Some(after[1..])
  }

  /** A valid type string: non-empty, and one complete type within the budget that uses all of it. */
  predicate ValidType(s: bytes) {
    |s| > 0 && ValidPrefix(s, DEPTH_LIMIT) == Some([])
  }

  /** `type_string_is_valid_inner`: advances a cursor over s, recursing for nested types. */
  method CheckPrefix(s: bytes, depth: nat) returns (r: Option<bytes>)
    ensures r == ValidPrefix(s, depth)
    decreases depth, 0
  {
    if depth == 0 || |s| == 0 {
      return None;
    }
    var c := s[0];
    var cursor := s[1..];
    match OpeningOf(c) {
      case Complete =>
        r := Some(cursor);
      case OpensTuple =>
        r := CheckMembers(cursor, depth - 1);
      case OpensDictEntry =>
        r := CheckDictEntry(cursor, depth - 1);
      case OpensElement =>
        r := CheckPrefix(cursor, depth - 1);
      case Unknown =>
        r := None;
    }
  }

  /** The loop over a tuple's members in `type_string_is_valid_inner`, through its `)`. */
  method CheckMembers(s: bytes, depth: nat) returns (r: Option<bytes>)
    ensures r == TupleMembers(s, depth)
    decreases depth, 1
  {
    var cursor := s;
    while |cursor| > 0 && cursor[0] != TUPLE_END
      invariant TupleMembers(cursor, depth) == TupleMembers(s, depth)
      decreases |cursor|
    {
      var member := CheckPrefix(cursor, depth);
      if member.None? {
        return None;
      }
      cursor := member.value;
    }
    if |cursor| == 0 {
      return None;
    }
    r := Some(cursor[1..]);
  }

  /** The dict-entry branch of `type_string_is_valid_inner`, after the `{`. */
  method CheckDictEntry(s: bytes, depth: nat) returns (r: Option<bytes>)
    ensures r == DictEntryRest(s, depth)
    decreases depth, 1
  {
    if |s| == 0 || !IsBasicChar(s[0]) {
      return None;
    }
    var value := CheckPrefix(s[1..], depth);
    if value.None? || |value.value| == 0 || value.value[0] != DICT_END {
      return None;
    }
    r := Some(value.value[1..]);
  }

  /** `type_string_is_valid` */
  method TypeStringIsValid(s: bytes) returns (valid: bool)
    ensures valid == ValidType(s)
  {
    if |s| == 0 {
      return false;
    }
    var rest := CheckPrefix(s, DEPTH_LIMIT);
    valid := rest.Some? && |rest.value| == 0;
  }

  // ---------------------------------------------------------------------------------------
  // The validator accepts exactly the printed trees of depth at most DEPTH_LIMIT
  // ---------------------------------------------------------------------------------------

  lemma MaxDepthCons(m: Type, ms: seq<Type>)
    ensures MaxDepth([m] + ms) == Max(Depth(m), MaxDepth(ms))
  {
    assert ([m] + ms)[1..] == ms;
  }

  lemma PrintAllCons(m: Type, ms: seq<Type>)
    ensures PrintAll([m] + ms) == Print(m) + PrintAll(ms)
  {
    assert ([m] + ms)[1..] == ms;
  }

  // How a string that starts with a type character and continues with the spelling of its
  // parts spells the whole type (one lemma per constructor, to keep each proof small).

  lemma TupleSpelled(s: bytes, d: nat, ms: seq<Type>, rest: bytes)
    requires |s| > 0 && s[0] == CLASS_TUPLE && s[1..] == PrintAll(ms) + [TUPLE_END] + rest
    requires AllWellFormed(ms) && MaxDepth(ms) <= d
    ensures WellFormed(Tuple(ms)) && Depth(Tuple(ms)) <= d + 1
    ensures s == Print(Tuple(ms)) + rest
  {
    assert s == [CLASS_TUPLE] + s[1..];
  }

  lemma DictEntrySpelled(s: bytes, depth: nat, v: Type, rest: bytes)
    requires |s| > 0 && s[1..] == Print(v) + [DICT_END] + rest
    requires IsBasicChar(s[0]) && WellFormed(v) && Depth(v) <= depth
    ensures WellFormed(DictEntry(s[0], v)) && Depth(DictEntry(s[0], v)) <= depth + 1
    ensures [CLASS_DICT_ENTRY] + s == Print(DictEntry(s[0], v)) + rest
  {
    assert s == [s[0]] + s[1..];
  }

  lemma ElementSpelled(s: bytes, d: nat, e: Type, rest: bytes)
    requires |s| > 0 && (s[0] == CLASS_MAYBE || s[0] == CLASS_ARRAY) && s[1..] == Print(e) + rest
    requires WellFormed(e) && Depth(e) <= d
    ensures var t := if s[0] == CLASS_MAYBE then Maybe(e) else Array(e);
      WellFormed(t) && Depth(t) <= d + 1 && s == Print(t) + rest
  {
    assert s == [s[0]] + s[1..];
  }

  lemma MemberSpelled(s: bytes, m: Type, after: bytes, tail: seq<Type>, rest: bytes)
    requires s == Print(m) + after && after == PrintAll(tail) + [TUPLE_END] + rest
    ensures s == PrintAll([m] + tail) + [TUPLE_END] + rest
  {
    PrintAllCons(m, tail);
  }

  /** Every string the validator accepts spells a well-formed tree within the budget. */
  lemma {:induction false} PrefixIsType(s: bytes, depth: nat, rest: bytes) returns (t: Type)
    requires ValidPrefix(s, depth) == Some(rest)
    ensures WellFormed(t) && Depth(t) <= depth
    ensures s == Print(t) + rest
    decreases depth, |s|, 1
  {
    PrefixParts(s, depth, rest);
    var d: nat := depth - 1;
    var c := s[0];
    match OpeningOf(c)
    case Complete =>
      t := Single(c);
      assert s == [c] + s[1..];
    case OpensTuple =>
      t := TupleIsType(s, d, rest);
    case OpensDictEntry =>
      t := DictEntryIsType(s[1..], d, rest);
      assert s == [CLASS_DICT_ENTRY] + s[1..];
    case OpensElement =>
      t := ElementIsType(s, d, rest);
  }

  lemma {:induction false} TupleIsType(s: bytes, d: nat, rest: bytes) returns (t: Type)
    requires |s| > 0 && s[0] == CLASS_TUPLE && TupleMembers(s[1..], d) == Some(rest)
    ensures WellFormed(t) && Depth(t) <= d + 1
    ensures s == Print(t) + rest
    decreases d + 1, |s|, 0
  {
    var ms := MembersAreTypes(s[1..], d, rest);
    t := Tuple(ms);
    TupleSpelled(s, d, ms, rest);
  }

  lemma {:induction false} ElementIsType(s: bytes, d: nat, rest: bytes) returns (t: Type)
    requires |s| > 0 && (s[0] == CLASS_MAYBE || s[0] == CLASS_ARRAY) && ValidPrefix(s[1..], d) == Some(rest)
    ensures WellFormed(t) && Depth(t) <= d + 1
    ensures s == Print(t) + rest
    decreases d + 1, |s|, 0
  {
    var e := PrefixIsType(s[1..], d, rest);
    t := if s[0] == CLASS_MAYBE then Maybe(e) else Array(e);
    ElementSpelled(s, d, e, rest);
  }

  /** What the validator accepted at the head of s, by its first character. */
  lemma PrefixParts(s: bytes, depth: nat, rest: bytes)
    requires ValidPrefix(s, depth) == Some(rest)
    ensures depth > 0 && |s| > 0
    ensures match OpeningOf(s[0])
      case Complete => rest == s[1..]
      case OpensTuple => TupleMembers(s[1..], depth - 1) == Some(rest)
      case OpensDictEntry => DictEntryRest(s[1..], depth - 1) == Some(rest)
      case OpensElement => ValidPrefix(s[1..], depth - 1) == Some(rest)
      case Unknown => false
  {
  }

  lemma {:induction false} DictEntryIsType(s: bytes, depth: nat, rest: bytes) returns (t: Type)
    requires DictEntryRest(s, depth) == Some(rest)
    ensures t.DictEntry? && WellFormed(t) && Depth(t) <= depth + 1
    ensures [CLASS_DICT_ENTRY] + s == Print(t) + rest
    decreases depth, |s|, 1
  {
    DictEntryParts(s, depth, rest);
    var v := PrefixIsType(s[1..], depth, [DICT_END] + rest);
    t := DictEntry(s[0], v);
    DictEntrySpelled(s, depth, v, rest);
  }

  /** What `DictEntryRest` accepted: a basic key, then a value type followed by `}`. */
  lemma DictEntryParts(s: bytes, depth: nat, rest: bytes)
    requires DictEntryRest(s, depth) == Some(rest)
    ensures |s| > 0 && IsBasicChar(s[0]) && ValidPrefix(s[1..], depth) == Some([DICT_END] + rest)
  {
    var after := ValidPrefix(s[1..], depth).value;
    assert after == [after[0]] + after[1..];
  }

  lemma {:induction false} MembersAreTypes(s: bytes, depth: nat, rest: bytes) returns (ms: seq<Type>)
    requires TupleMembers(s, depth) == Some(rest)
    ensures AllWellFormed(ms) && MaxDepth(ms) <= depth
    ensures s == PrintAll(ms) + [TUPLE_END] + rest
    decreases depth, |s|, 2
  {
    if s[0] == TUPLE_END {
      ms := [];
      assert s == [TUPLE_END] + s[1..];
    } else {
      var after :| ValidPrefix(s, depth) == Some(after);
      var m := PrefixIsType(s, depth, after);
      var tail := MembersAreTypes(after, depth, rest);
      ms := [m] + tail;
      MaxDepthCons(m, tail);
      MemberSpelled(s, m, after, tail, rest);
      assert ms[0] == m && ms[1..] == tail;
    }
  }

  // The converse: what follows the first character of a printed type.

  lemma TupleUnspelled(ms: seq<Type>, rest: bytes)
    ensures (Print(Tuple(ms)) + rest)[0] == CLASS_TUPLE
    ensures (Print(Tuple(ms)) + rest)[1..] == PrintAll(ms) + [TUPLE_END] + rest
  {
  }

  lemma DictEntryUnspelled(k: byte, v: Type, rest: bytes)
    ensures (Print(DictEntry(k, v)) + rest)[0] == CLASS_DICT_ENTRY
    ensures (Print(DictEntry(k, v)) + rest)[1..][0] == k
    ensures (Print(DictEntry(k, v)) + rest)[1..][1..] == Print(v) + ([DICT_END] + rest)
  {
  }

  lemma ElementUnspelled(t: Type, rest: bytes)
    requires t.Maybe? || t.Array?
    ensures (Print(t) + rest)[0] == if t.Maybe? then CLASS_MAYBE else CLASS_ARRAY
    ensures (Print(t) + rest)[1..] == Print(t.element) + rest
  {
  }

  lemma MemberUnspelled(ms: seq<Type>, rest: bytes)
    requires ms != []
    ensures PrintAll(ms) + [TUPLE_END] + rest == Print(ms[0]) + (PrintAll(ms[1..]) + [TUPLE_END] + rest)
  {
  }

  /** The validator at a printed tuple goes on to its members with one less level. */
  lemma TupleStep(ms: seq<Type>, rest: bytes, d: nat)
    ensures ValidPrefix(Print(Tuple(ms)) + rest, d + 1) == TupleMembers(PrintAll(ms) + [TUPLE_END] + rest, d)
  {
    TupleUnspelled(ms, rest);
  }

  /** The validator at a printed maybe or array goes on to its element with one less level. */
  lemma ElementStep(t: Type, rest: bytes, d: nat)
    requires t.Maybe? || t.Array?
    ensures ValidPrefix(Print(t) + rest, d + 1) == ValidPrefix(Print(t.element) + rest, d)
  {
    ElementUnspelled(t, rest);
  }

  /** The validator at a printed dict entry with a basic key stands or falls with its value. */
  lemma DictEntryStep(k: byte, v: Type, rest: bytes, d: nat)
    requires IsBasicChar(k)
    ensures ValidPrefix(Print(v) + ([DICT_END] + rest), d) == None
            ==> ValidPrefix(Print(DictEntry(k, v)) + rest, d + 1) == None
    ensures ValidPrefix(Print(v) + ([DICT_END] + rest), d) == Some([DICT_END] + rest)
            ==> ValidPrefix(Print(DictEntry(k, v)) + rest, d + 1) == Some(rest)
  {
    DictEntryUnspelled(k, v, rest);
  }

  lemma SingleIsValid(c: byte, rest: bytes, depth: nat)
    requires IsSingleCharType(c) && depth > 0
    ensures ValidPrefix([c] + rest, depth) == Some(rest)
  {
    assert ([c] + rest)[1..] == rest;
  }

  /** Every well-formed tree within the budget is accepted, and the validator stops right after it. */
  lemma {:induction false} PrintIsValid(t: Type, rest: bytes, depth: nat)
    requires WellFormed(t) && Depth(t) <= depth
    ensures ValidPrefix(Print(t) + rest, depth) == Some(rest)
    decreases t, 2
  {
    var d: nat := depth - 1;
    match t
    case Single(c) =>
      SingleIsValid(c, rest, depth);
    case Tuple(ms) =>
      TupleIsValid(ms, rest, d);
    case DictEntry(k, v) =>
      DictEntryIsValid(k, v, rest, d);
    case Maybe(_) =>
      ElementIsValid(t, rest, d);
    case Array(_) =>
      ElementIsValid(t, rest, d);
  }

  lemma {:induction false} TupleIsValid(ms: seq<Type>, rest: bytes, d: nat)
    requires AllWellFormed(ms) && MaxDepth(ms) <= d
    ensures ValidPrefix(Print(Tuple(ms)) + rest, d + 1) == Some(rest)
    decreases Tuple(ms), 1
  {
    PrintAllIsValid(ms, rest, d);
    TupleStep(ms, rest, d);
  }

  lemma {:induction false} DictEntryIsValid(k: byte, v: Type, rest: bytes, d: nat)
    requires IsBasicChar(k) && WellFormed(v) && Depth(v) <= d
    ensures ValidPrefix(Print(DictEntry(k, v)) + rest, d + 1) == Some(rest)
    decreases DictEntry(k, v), 1
  {
    PrintIsValid(v, [DICT_END] + rest, d);
    DictEntryStep(k, v, rest, d);
  }

  lemma {:induction false} ElementIsValid(t: Type, rest: bytes, d: nat)
    requires (t.Maybe? || t.Array?) && WellFormed(t.element) && Depth(t.element) <= d
    ensures ValidPrefix(Print(t) + rest, d + 1) == Some(rest)
    decreases t, 1
  {
    PrintIsValid(t.element, rest, d);
    ElementStep(t, rest, d);
  }

  lemma {:induction false} PrintAllIsValid(ms: seq<Type>, rest: bytes, depth: nat)
    requires AllWellFormed(ms) && MaxDepth(ms) <= depth
    ensures TupleMembers(PrintAll(ms) + [TUPLE_END] + rest, depth) == Some(rest)
    decreases ms, 0
  {
    if ms == [] {
      assert (PrintAll(ms) + [TUPLE_END] + rest)[1..] == rest;
    } else {
      var tail := PrintAll(ms[1..]) + [TUPLE_END] + rest;
      MemberUnspelled(ms, rest);
      PrintIsValid(ms[0], tail, depth);
      PrintAllIsValid(ms[1..], rest, depth);
    }
  }

  /** A tree nested deeper than the budget is rejected outright. */
  lemma {:induction false} TooDeepIsRejected(t: Type, rest: bytes, depth: nat)
    requires WellFormed(t) && Depth(t) > depth
    ensures ValidPrefix(Print(t) + rest, depth) == None
    decreases t, 2
  {
    if depth > 0 {
      var d: nat := depth - 1;
      match t
      case Tuple(ms) => TooDeepTuple(ms, rest, d);
      case DictEntry(k, v) => TooDeepDictEntry(k, v, rest, d);
      case Maybe(_) => TooDeepElement(t, rest, d);
      case Array(_) => TooDeepElement(t, rest, d);
    }
  }

  lemma {:induction false} TooDeepTuple(ms: seq<Type>, rest: bytes, d: nat)
    requires AllWellFormed(ms) && MaxDepth(ms) > d
    ensures ValidPrefix(Print(Tuple(ms)) + rest, d + 1) == None
    decreases Tuple(ms), 1
  {
    TooDeepMembers(ms, rest, d);
    TupleStep(ms, rest, d);
  }

  lemma {:induction false} TooDeepDictEntry(k: byte, v: Type, rest: bytes, d: nat)
    requires IsBasicChar(k) && WellFormed(v) && Depth(v) > d
    ensures ValidPrefix(Print(DictEntry(k, v)) + rest, d + 1) == None
    decreases DictEntry(k, v), 1
  {
    TooDeepIsRejected(v, [DICT_END] + rest, d);
    DictEntryStep(k, v, rest, d);
  }

  lemma {:induction false} TooDeepElement(t: Type, rest: bytes, d: nat)
    requires (t.Maybe? || t.Array?) && WellFormed(t.element) && Depth(t.element) > d
    ensures ValidPrefix(Print(t) + rest, d + 1) == None
    decreases t, 1
  {
    TooDeepIsRejected(t.element, rest, d);
    ElementStep(t, rest, d);
  }

  lemma {:induction false} TooDeepMembers(ms: seq<Type>, rest: bytes, depth: nat)
    requires AllWellFormed(ms) && MaxDepth(ms) > depth
    ensures TupleMembers(PrintAll(ms) + [TUPLE_END] + rest, depth) == None
    decreases ms, 0
  {
    var tail := PrintAll(ms[1..]) + [TUPLE_END] + rest;
    MemberUnspelled(ms, rest);
    if Depth(ms[0]) > depth {
      TooDeepIsRejected(ms[0], tail, depth);
    } else {
      PrintIsValid(ms[0], tail, depth);
      TooDeepMembers(ms[1..], rest, depth);
    }
  }

  /** A well-formed tree prints to a valid type string exactly when it fits the nesting budget. */
  lemma PrintedValid(t: Type)
    requires WellFormed(t)
    ensures ValidType(Print(t)) <==> Depth(t) <= DEPTH_LIMIT
  {
    assert Print(t) + [] == Print(t);
    if Depth(t) <= DEPTH_LIMIT {
      PrintIsValid(t, [], DEPTH_LIMIT);
    } else {
      TooDeepIsRejected(t, [], DEPTH_LIMIT);
    }
  }

  /** The valid type strings are exactly the printed well-formed trees within the budget. */
  lemma ValidTypeIsGrammar(s: bytes)
    ensures ValidType(s) <==> exists t :: WellFormed(t) && Depth(t) <= DEPTH_LIMIT && Print(t) == s
  {
    if ValidType(s) {
      var t := PrefixIsType(s, DEPTH_LIMIT, []);
      assert Print(t) == s;
    }
    if t :| WellFormed(t) && Depth(t) <= DEPTH_LIMIT && Print(t) == s {
      PrintedValid(t);
    }
  }

  /** Bytes that are ASCII and not zero, as every type character is. */
  predicate Printable(s: bytes) {
    forall i | 0 <= i < |s| :: 0 < s[i] < 0x80
  }

  lemma {:induction false} PrintIsPrintable(t: Type)
    requires WellFormed(t)
    ensures Printable(Print(t))
    decreases t, 1
  {
    match t
    case Single(c) =>
    case Tuple(ms) =>
      PrintAllIsPrintable(ms);
    case DictEntry(k, v) =>
      PrintIsPrintable(v);
    case Maybe(e) =>
      PrintIsPrintable(e);
    case Array(e) =>
      PrintIsPrintable(e);
  }

  lemma {:induction false} PrintAllIsPrintable(ms: seq<Type>)
    requires AllWellFormed(ms)
    ensures Printable(PrintAll(ms))
    decreases ms, 0
  {
    if ms != [] {
      PrintIsPrintable(ms[0]);
      PrintAllIsPrintable(ms[1..]);
    }
  }

  /** A valid type string is ASCII without zero bytes, so it is also UTF-8 and has no separator in it. */
  lemma ValidTypeIsPrintable(s: bytes)
    requires ValidType(s)
    ensures Printable(s)
  {
    ValidTypeIsGrammar(s);
    var t :| WellFormed(t) && Depth(t) <= DEPTH_LIMIT && Print(t) == s;
    PrintIsPrintable(t);
  }

  /** The single-character types cs[0], cs[1], ... */
  function Singles(cs: bytes): (ms: seq<Type>)
    ensures |ms| == |cs|
  {
    seq(|cs|, i requires 0 <= i < |cs| => Single(cs[i]))
  }

  lemma {:induction false} SinglesSpelled(cs: bytes)
    requires forall i | 0 <= i < |cs| :: IsSingleCharType(cs[i])
    ensures PrintAll(Singles(cs)) == cs
    ensures AllWellFormed(Singles(cs)) && MaxDepth(Singles(cs)) <= 1
  {
    if cs != [] {
      SinglesSpelled(cs[1..]);
      assert Singles(cs)[1..] == Singles(cs[1..]);
    }
  }

  /** Examples from the unit tests of the validator: accepted strings. */
  lemma ValidExamples()
    ensures ValidType([CLASS_TUPLE, TUPLE_END])
    ensures ValidType([CLASS_TUPLE, CLASS_UINT32, CLASS_UINT32, CLASS_STRING, TUPLE_END])
    ensures ValidType([CLASS_ARRAY, CLASS_DICT_ENTRY, CLASS_UINT32,
                       CLASS_TUPLE, CLASS_UINT32, CLASS_STRING, TUPLE_END, DICT_END])
  {
    PrintedValid(Tuple([]));
    assert Print(Tuple([])) == [CLASS_TUPLE, TUPLE_END];
    ValidFlatTuple();
    ValidDictionary();
  }

  lemma ValidFlatTuple()
    ensures ValidType([CLASS_TUPLE, CLASS_UINT32, CLASS_UINT32, CLASS_STRING, TUPLE_END])
  {
    var uus: bytes := [CLASS_UINT32, CLASS_UINT32, CLASS_STRING];
    SinglesSpelled(uus);
    var t := Tuple(Singles(uus));
    assert Depth(t) <= 2;
    PrintedValid(t);
    assert Print(t) == [CLASS_TUPLE] + uus + [TUPLE_END];
    assert [CLASS_TUPLE] + uus + [TUPLE_END] == [CLASS_TUPLE, CLASS_UINT32, CLASS_UINT32, CLASS_STRING, TUPLE_END];
  }

  lemma ValidDictionary()
    ensures ValidType([CLASS_ARRAY, CLASS_DICT_ENTRY, CLASS_UINT32,
                       CLASS_TUPLE, CLASS_UINT32, CLASS_STRING, TUPLE_END, DICT_END])
  {
    var dict := DictionaryTree();
    PrintedValid(dict);
  }

  /** The tree that `a{u(us)}` spells. */
  lemma DictionaryTree() returns (dict: Type)
    ensures WellFormed(dict) && Depth(dict) <= DEPTH_LIMIT
    ensures Print(dict) == [CLASS_ARRAY, CLASS_DICT_ENTRY, CLASS_UINT32,
                            CLASS_TUPLE, CLASS_UINT32, CLASS_STRING, TUPLE_END, DICT_END]
  {
    var us: bytes := [CLASS_UINT32, CLASS_STRING];
    SinglesSpelled(us);
    var tuple := Tuple(Singles(us));
    var entry := DictEntry(CLASS_UINT32, tuple);
    dict := Array(entry);
    assert Depth(tuple) <= 2 && Depth(entry) <= 3 && Depth(dict) <= 4;
    assert Print(tuple) == [CLASS_TUPLE] + us + [TUPLE_END];
    assert Print(entry) == [CLASS_DICT_ENTRY, CLASS_UINT32] + Print(tuple) + [DICT_END];
    assert Print(dict) == [CLASS_ARRAY] + Print(entry);
  }

  /** Examples from the unit tests of the validator: rejected strings. */
  lemma InvalidExamples()
    ensures !ValidType([CLASS_ARRAY])
    ensures !ValidType([CLASS_TUPLE, CLASS_UINT32, CLASS_UINT32, CLASS_STRING, TUPLE_END, TUPLE_END])
    ensures !ValidType([CLASS_ARRAY, CLASS_DICT_ENTRY, CLASS_UINT32, DICT_END])
    ensures !ValidType([])
  {
    assert ValidPrefix([CLASS_ARRAY], DEPTH_LIMIT) == ValidPrefix([], DEPTH_LIMIT - 1);
    var uus: bytes := [CLASS_UINT32, CLASS_UINT32, CLASS_STRING];
    SinglesSpelled(uus);
    PrintIsValid(Tuple(Singles(uus)), [TUPLE_END], DEPTH_LIMIT);
    assert Print(Tuple(Singles(uus))) + [TUPLE_END]
      == [CLASS_TUPLE, CLASS_UINT32, CLASS_UINT32, CLASS_STRING, TUPLE_END, TUPLE_END];
    var d: bytes := [CLASS_ARRAY, CLASS_DICT_ENTRY, CLASS_UINT32, DICT_END];
    assert ValidPrefix(d, DEPTH_LIMIT) == ValidPrefix(d[1..], DEPTH_LIMIT - 1);
    assert ValidPrefix(d[1..], DEPTH_LIMIT - 1) == DictEntryRest(d[2..], DEPTH_LIMIT - 2);
    assert OpeningOf(DICT_END) == Unknown;
    assert ValidPrefix(d[3..], DEPTH_LIMIT - 2) == None;
  }

  // ---------------------------------------------------------------------------------------
  // Character classes
  // ---------------------------------------------------------------------------------------

  /** `is_basic`: one byte, and a basic type character. */
  predicate IsBasic(t: bytes) { |t| == 1 && IsBasicChar(t[0]) }

  /** `is_container`: the first byte opens an array, maybe, tuple, dict entry or variant. */
  predicate IsContainer(t: bytes)
    requires |t| > 0
  {
    t[0] == CLASS_ARRAY || t[0] == CLASS_MAYBE || t[0] == CLASS_TUPLE
    || t[0] == CLASS_ANY_TUPLE || t[0] == CLASS_DICT_ENTRY || t[0] == CLASS_VARIANT
  }

  predicate IsMaybe(t: bytes) requires |t| > 0 { t[0] == CLASS_MAYBE }
  predicate IsArray(t: bytes) requires |t| > 0 { t[0] == CLASS_ARRAY }
  predicate IsTuple(t: bytes) requires |t| > 0 { t[0] == CLASS_TUPLE || t[0] == CLASS_ANY_TUPLE }
  predicate IsDictEntry(t: bytes) requires |t| > 0 { t[0] == CLASS_DICT_ENTRY }
  predicate IsVariant(t: bytes) requires |t| > 0 { t[0] == CLASS_VARIANT }

  /**
   * On the grammar: the basic types are the single basic characters, and every other type
   * is a container except `*`, which is neither.
   */
  lemma ClassesOfTree(t: Type)
    requires WellFormed(t)
    ensures IsBasic(Print(t)) <==> t.Single? && IsBasicChar(t.c)
    ensures IsContainer(Print(t)) <==> !(t.Single? && (IsBasicChar(t.c) || t.c == CLASS_ANY))
    ensures IsTuple(Print(t)) <==> t.Tuple? || t == Single(CLASS_ANY_TUPLE)
  {
  }

  /** `type_element`: the type after the leading `a` or `m`. */
  function TypeElement(t: bytes): (r: bytes)
    requires |t| > 0 && (t[0] == CLASS_ARRAY || t[0] == CLASS_MAYBE)
    ensures [t[0]] + r == t
  {
    t[1..]
  }

  // ---------------------------------------------------------------------------------------
  // Derived types (`VariantType::new_array`, `new_maybe`, `new_tuple`)
  // ---------------------------------------------------------------------------------------

  /** `new_array`: `a` followed by the element type, re-validated. */
  function NewArray(element: bytes): Option<bytes> {
    var s := [CLASS_ARRAY] + element;
    if ValidType(s) then Some(s) else None
  }

  /** `new_maybe`: `m` followed by the element type, re-validated. */
  function NewMaybe(element: bytes): Option<bytes> {
    var s := [CLASS_MAYBE] + element;
    if ValidType(s) then Some(s) else None
  }

  function Concat(items: seq<bytes>): bytes {
    if items == [] then [] else items[0] + Concat(items[1..])
  }

  /** `new_tuple`: the item types between brackets; the `unwrap` panics (None) when invalid. */
  function NewTuple(items: seq<bytes>): Option<bytes> {
    var s := [CLASS_TUPLE] + Concat(items) + [TUPLE_END];
    if ValidType(s) then Some(s) else None
  }

  function PrintEach(ms: seq<Type>): (r: seq<bytes>)
    ensures |r| == |ms|
  {
    if ms == [] then [] else [Print(ms[0])] + PrintEach(ms[1..])
  }

  lemma {:induction false} ConcatPrintEach(ms: seq<Type>)
    ensures Concat(PrintEach(ms)) == PrintAll(ms)
  {
    if ms != [] {
      ConcatPrintEach(ms[1..]);
      assert PrintEach(ms)[1..] == PrintEach(ms[1..]);
    }
  }

  /** An array of a valid element type is valid exactly while the nesting stays within budget. */
  lemma NewArraySpec(e: Type)
    requires WellFormed(e)
    ensures NewArray(Print(e)) == if Depth(e) < DEPTH_LIMIT then Some(Print(Array(e))) else None
  {
    PrintedValid(Array(e));
  }

  /** The same for a maybe type. */
  lemma NewMaybeSpec(e: Type)
    requires WellFormed(e)
    ensures NewMaybe(Print(e)) == if Depth(e) < DEPTH_LIMIT then Some(Print(Maybe(e))) else None
  {
    PrintedValid(Maybe(e));
  }

  /** A tuple of valid member types is the printed tuple tree, or a panic when nested too deep. */
  lemma NewTupleSpec(ms: seq<Type>)
    requires AllWellFormed(ms)
    ensures NewTuple(PrintEach(ms)) == if MaxDepth(ms) < DEPTH_LIMIT then Some(Print(Tuple(ms))) else None
  {
    ConcatPrintEach(ms);
    PrintedValid(Tuple(ms));
  }
}
