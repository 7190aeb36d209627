/**
 * The length of the type at the head of a type string (`string_length`), and what is built
 * on it: `normalized`, and walking the member types of a tuple or dict entry with
 * `first`, `next` and `n_items` (src/no_glib/variant_type.rs).
 *
 * The code counts `(` as opening a bracket but not `{`, while `}` closes one, so the
 * lengths it reports are right exactly on types without dict entries.
 */
module VariantTypeLength {
  import opened Wrappers
  import opened GvdbUtil
  import opened VariantType

  /**
   * The scan of `string_length_inner` from position `index` with the counter at `brackets`:
   * `a` and `m` are skipped, `(` adds one, `)` and `}` take one away, and the scan stops after
   * the first character that leaves the counter at zero. The counter is a signed integer
   * (its type is inferred as i32), so a stray closing bracket takes it below zero rather than
   * stopping anything. With `countDictEntry` the scan also counts `{` as opening, which the
   * code does not do. None where the code indexes past the end of s.
   */
  function Scan(s: bytes, index: nat, brackets: int, countDictEntry: bool): (r: Option<nat>)
    ensures r.Some? ==> index < r.value <= |s|
    decreases |s| - index
  {
    if index >= |s| then None
    else
      var c := s[index];
      if c == CLASS_ARRAY || c == CLASS_MAYBE then Scan(s, index + 1, brackets, countDictEntry)
      else
        var open :=
          if c == CLASS_TUPLE || (countDictEntry && c == CLASS_DICT_ENTRY) then brackets + 1
          else if c == TUPLE_END || c == DICT_END then brackets - 1
          else brackets;
        if open == 0 then Some(index + 1) else Scan(s, index + 1, open, countDictEntry)
  }

  /** `string_length`: the length of the type at the head of s, as the code computes it. */
  function StringLength(s: bytes): Option<nat> {
    Scan(s, 0, 0, false)
  }

  /** The length `string_length` evidently means: `{` opens a bracket as `(` does. */
  function IntendedStringLength(s: bytes): Option<nat> {
    Scan(s, 0, 0, true)
  }

  /** `string_length_inner`: the loop over the characters with its bracket counter. */
  method StringLengthInner(s: bytes) returns (r: Option<nat>)
    ensures r == StringLength(s)
  {
    var brackets := 0;
    var index: nat := 0;
    while true
      invariant Scan(s, index, brackets, false) == StringLength(s)
      decreases |s| - index
    {
      if index >= |s| {
        return None;
      }
      var chr := s[index];
      while chr == CLASS_ARRAY || chr == CLASS_MAYBE
        invariant index < |s| && chr == s[index]
        invariant Scan(s, index, brackets, false) == StringLength(s)
        decreases |s| - index
      {
        index := index + 1;
        if index >= |s| {
          return None;
        }
        chr := s[index];
      }
      // The `m` here can no longer occur: the loop above has skipped it.
      if chr == CLASS_TUPLE || chr == CLASS_MAYBE {
        brackets := brackets + 1;
      } else if chr == TUPLE_END || chr == DICT_END {
        brackets := brackets - 1;
      }
      index := index + 1;
      if brackets == 0 {
        return Some(index);
      }
    }
  }

  // ---------------------------------------------------------------------------------------
  // The scan over printed types
  // ---------------------------------------------------------------------------------------

  predicate DictFree(t: Type) {
    match t
    case Single(_) => true
    case Tuple(ms) => AllDictFree(ms)
    case DictEntry(_, _) => false
    case Maybe(e) => DictFree(e)
    case Array(e) => DictFree(e)
  }

  predicate AllDictFree(ms: seq<Type>) {
    forall i | 0 <= i < |ms| :: DictFree(ms[i])
  }

  /** s holds p from position i on. */
  predicate Spells(s: bytes, i: nat, p: bytes) {
    i + |p| <= |s| && s[i..i + |p|] == p
  }

  lemma SpellsAt(s: bytes, i: nat, p: bytes, k: nat)
    requires Spells(s, i, p) && k < |p|
    ensures s[i + k] == p[k]
  {
    assert s[i..i + |p|][k] == s[i + k];
  }

  /** Where s holds a + b, it holds a and then b. */
  lemma SpellsSplit(s: bytes, i: nat, a: bytes, b: bytes)
    requires Spells(s, i, a + b)
    ensures Spells(s, i, a) && Spells(s, i + |a|, b)
  {
    assert s[i..i + |a|] == (a + b)[..|a|];
    assert s[i + |a|..i + |a| + |b|] == (a + b)[|a|..];
  }

  lemma SpellsTuple(s: bytes, i: nat, ms: seq<Type>)
    requires Spells(s, i, Print(Tuple(ms)))
    ensures s[i] == CLASS_TUPLE && Spells(s, i + 1, PrintAll(ms))
    ensures s[i + 1 + |PrintAll(ms)|] == TUPLE_END
    ensures |Print(Tuple(ms))| == |PrintAll(ms)| + 2
  {
    SpellsSplit(s, i, [CLASS_TUPLE] + PrintAll(ms), [TUPLE_END]);
    SpellsSplit(s, i, [CLASS_TUPLE], PrintAll(ms));
    SpellsAt(s, i, [CLASS_TUPLE], 0);
    SpellsAt(s, i + 1 + |PrintAll(ms)|, [TUPLE_END], 0);
  }

  lemma SpellsDictEntry(s: bytes, i: nat, k: byte, v: Type)
    requires Spells(s, i, Print(DictEntry(k, v)))
    ensures s[i] == CLASS_DICT_ENTRY && s[i + 1] == k && Spells(s, i + 2, Print(v))
    ensures s[i + 2 + |Print(v)|] == DICT_END
    ensures |Print(DictEntry(k, v))| == |Print(v)| + 3
  {
    var head: bytes := [CLASS_DICT_ENTRY, k];
    var value := Print(v);
    assert Print(DictEntry(k, v)) == head + value + [DICT_END];
    SpellsSplit(s, i, head + value, [DICT_END]);
    SpellsSplit(s, i, head, value);
    SpellsAt(s, i, head, 0);
    SpellsAt(s, i, head, 1);
    assert |head + value| == 2 + |value|;
    SpellsAt(s, i + 2 + |value|, [DICT_END], 0);
  }

  lemma SpellsElement(s: bytes, i: nat, t: Type)
    requires (t.Maybe? || t.Array?) && Spells(s, i, Print(t))
    ensures s[i] == (if t.Maybe? then CLASS_MAYBE else CLASS_ARRAY)
    ensures Spells(s, i + 1, Print(t.element))
  {
    var c := if t.Maybe? then CLASS_MAYBE else CLASS_ARRAY;
    assert Print(t) == [c] + Print(t.element);
    SpellsSplit(s, i, [c], Print(t.element));
    SpellsAt(s, i, [c], 0);
  }

  lemma SpellsMembers(s: bytes, i: nat, ms: seq<Type>)
    requires ms != [] && Spells(s, i, PrintAll(ms))
    ensures Spells(s, i, Print(ms[0]))
    ensures Spells(s, i + |Print(ms[0])|, PrintAll(ms[1..]))
    ensures |PrintAll(ms)| == |Print(ms[0])| + |PrintAll(ms[1..])|
  {
    SpellsSplit(s, i, Print(ms[0]), PrintAll(ms[1..]));
  }

  /**
   * One bracketed type of n inner characters at position i: when the scan with one more
   * bracket open passes over the inside, the whole type leaves the count as it was.
   */
  lemma ScanEnclosed(s: bytes, i: nat, n: nat, b: nat, countDictEntry: bool)
    requires i + n + 1 < |s|
    requires s[i] == CLASS_TUPLE || (countDictEntry && s[i] == CLASS_DICT_ENTRY)
    requires s[i + n + 1] == TUPLE_END || s[i + n + 1] == DICT_END
    requires Scan(s, i + 1, b + 1, countDictEntry) == Scan(s, i + 1 + n, b + 1, countDictEntry)
    ensures Scan(s, i, b, countDictEntry)
         == if b == 0 then Some(i + n + 2) else Scan(s, i + n + 2, b, countDictEntry)
  {
  }

  /** A dict entry's key character leaves the bracket count as it is. */
  lemma ScanKey(s: bytes, i: nat, b: nat, countDictEntry: bool)
    requires i < |s| && IsBasicChar(s[i]) && b > 0
    ensures Scan(s, i, b, countDictEntry) == Scan(s, i + 1, b, countDictEntry)
  {
  }

  /** A type of one character is passed over without touching the bracket count. */
  lemma ScanSingle(s: bytes, i: nat, b: nat, c: byte, countDictEntry: bool)
    requires i < |s| && s[i] == c && IsSingleCharType(c)
    ensures Scan(s, i, b, countDictEntry)
         == if b == 0 then Some(i + 1) else Scan(s, i + 1, b, countDictEntry)
  {
  }

  /** `a` and `m` are skipped. */
  lemma ScanElement(s: bytes, i: nat, b: nat, countDictEntry: bool)
    requires i < |s| && (s[i] == CLASS_MAYBE || s[i] == CLASS_ARRAY)
    ensures Scan(s, i, b, countDictEntry) == Scan(s, i + 1, b, countDictEntry)
  {
  }

  /** Inside an open bracket, the scan passes over a whole type and keeps the bracket count. */
  lemma {:induction false} ScanOver(s: bytes, i: nat, b: nat, t: Type, countDictEntry: bool)
    requires WellFormed(t) && (countDictEntry || DictFree(t)) && b > 0 && Spells(s, i, Print(t))
    ensures Scan(s, i, b, countDictEntry) == Scan(s, i + |Print(t)|, b, countDictEntry)
    decreases t, 1
  {
    match t
    case Single(c) =>
      SpellsAt(s, i, Print(t), 0);
      ScanSingle(s, i, b, c, countDictEntry);
    case Tuple(ms) =>
      ScanOverTuple(s, i, b, ms, countDictEntry);
    case DictEntry(k, v) =>
      ScanOverDictEntry(s, i, b, k, v, countDictEntry);
    case Maybe(e) =>
      ScanOverElement(s, i, b, t, countDictEntry);
    case Array(e) =>
      ScanOverElement(s, i, b, t, countDictEntry);
  }

  lemma {:induction false} ScanOverElement(s: bytes, i: nat, b: nat, t: Type, countDictEntry: bool)
    requires t.Maybe? || t.Array?
    requires WellFormed(t) && (countDictEntry || DictFree(t)) && b > 0 && Spells(s, i, Print(t))
    ensures Scan(s, i, b, countDictEntry) == Scan(s, i + |Print(t)|, b, countDictEntry)
    decreases t, 0
  {
    SpellsElement(s, i, t);
    ScanElement(s, i, b, countDictEntry);
    assert |Print(t)| == 1 + |Print(t.element)|;
    ScanOver(s, i + 1, b, t.element, countDictEntry);
  }

  lemma {:induction false} ScanOverTuple(s: bytes, i: nat, b: nat, ms: seq<Type>, countDictEntry: bool)
    requires AllWellFormed(ms) && (countDictEntry || AllDictFree(ms)) && Spells(s, i, Print(Tuple(ms)))
    ensures Scan(s, i, b, countDictEntry)
         == if b == 0 then Some(i + |Print(Tuple(ms))|) else Scan(s, i + |Print(Tuple(ms))|, b, countDictEntry)
    decreases Tuple(ms), 0
  {
    SpellsTuple(s, i, ms);
    ScanOverAll(s, i + 1, b + 1, ms, countDictEntry);
    ScanEnclosed(s, i, |PrintAll(ms)|, b, countDictEntry);
  }

  lemma {:induction false} ScanOverDictEntry(s: bytes, i: nat, b: nat, k: byte, v: Type, countDictEntry: bool)
    requires IsBasicChar(k) && WellFormed(v) && countDictEntry && Spells(s, i, Print(DictEntry(k, v)))
    ensures Scan(s, i, b, countDictEntry)
         == if b == 0 then Some(i + |Print(DictEntry(k, v))|) else Scan(s, i + |Print(DictEntry(k, v))|, b, countDictEntry)
    decreases DictEntry(k, v), 0
  {
    SpellsDictEntry(s, i, k, v);
    ScanKey(s, i + 1, b + 1, countDictEntry);
    ScanOver(s, i + 2, b + 1, v, countDictEntry);
    ScanEnclosed(s, i, 1 + |Print(v)|, b, countDictEntry);
  }

  lemma {:induction false} ScanOverAll(s: bytes, i: nat, b: nat, ms: seq<Type>, countDictEntry: bool)
    requires AllWellFormed(ms) && (countDictEntry || AllDictFree(ms)) && b > 0
    requires Spells(s, i, PrintAll(ms))
    ensures Scan(s, i, b, countDictEntry) == Scan(s, i + |PrintAll(ms)|, b, countDictEntry)
    decreases ms, 1
  {
    if ms == [] {
      assert |PrintAll(ms)| == 0;
    } else {
      var j := i + |Print(ms[0])|;
      var end := i + |PrintAll(ms)|;
      ScanOverFirst(s, i, b, ms, countDictEntry);
      ScanOverAll(s, j, b, ms[1..], countDictEntry);
      assert j + |PrintAll(ms[1..])| == end;
      assert Scan(s, j, b, countDictEntry) == Scan(s, end, b, countDictEntry);
    }
  }

  lemma ScanOverFirst(s: bytes, i: nat, b: nat, ms: seq<Type>, countDictEntry: bool)
    requires ms != [] && AllWellFormed(ms) && (countDictEntry || AllDictFree(ms)) && b > 0
    requires Spells(s, i, PrintAll(ms))
    ensures Scan(s, i, b, countDictEntry) == Scan(s, i + |Print(ms[0])|, b, countDictEntry)
    ensures Spells(s, i + |Print(ms[0])|, PrintAll(ms[1..]))
    ensures |PrintAll(ms)| == |Print(ms[0])| + |PrintAll(ms[1..])|
    ensures AllWellFormed(ms[1..]) && (countDictEntry || AllDictFree(ms[1..]))
    decreases ms, 0
  {
    SpellsMembers(s, i, ms);
    ScanOver(s, i, b, ms[0], countDictEntry);
  }

  /** With no bracket open, the scan stops right after the type at position i. */
  lemma {:induction false} ScanType(s: bytes, i: nat, t: Type, countDictEntry: bool)
    requires WellFormed(t) && (countDictEntry || DictFree(t)) && Spells(s, i, Print(t))
    ensures Scan(s, i, 0, countDictEntry) == Some(i + |Print(t)|)
    decreases t
  {
    match t
    case Single(c) =>
      SpellsAt(s, i, Print(t), 0);
      ScanSingle(s, i, 0, c, countDictEntry);
    case Tuple(ms) =>
      ScanOverTuple(s, i, 0, ms, countDictEntry);
    case DictEntry(k, v) =>
      ScanOverDictEntry(s, i, 0, k, v, countDictEntry);
    case Maybe(e) =>
      SpellsElement(s, i, t);
      ScanElement(s, i, 0, countDictEntry);
      ScanType(s, i + 1, e, countDictEntry);
    case Array(e) =>
      SpellsElement(s, i, t);
      ScanElement(s, i, 0, countDictEntry);
      ScanType(s, i + 1, e, countDictEntry);
  }

  lemma SpellsPrefix(t: Type, rest: bytes)
    ensures Spells(Print(t) + rest, 0, Print(t))
  {
    assert (Print(t) + rest)[..|Print(t)|] == Print(t);
  }

  /** On types without dict entries, `string_length` is the length of the type at the head. */
  lemma StringLengthOfPrinted(t: Type, rest: bytes)
    requires WellFormed(t) && DictFree(t)
    ensures StringLength(Print(t) + rest) == Some(|Print(t)|)
  {
    SpellsPrefix(t, rest);
    ScanType(Print(t) + rest, 0, t, false);
  }

  /** The intended length is right on every type. */
  lemma IntendedStringLengthOfPrinted(t: Type, rest: bytes)
    requires WellFormed(t)
    ensures IntendedStringLength(Print(t) + rest) == Some(|Print(t)|)
  {
    SpellsPrefix(t, rest);
    ScanType(Print(t) + rest, 0, t, true);
  }

  /**
   * Inside a bracket, the count as written never exceeds the count that takes in `{` and
   * moves by at most one per character, so it reaches 0 no later than the intended one.
   */
  lemma {:induction false} WrittenScanEndsFirst(s: bytes, i: nat, b1: int, b2: int)
    requires 1 <= b1 <= b2 && Scan(s, i, b2, true).Some?
    ensures Scan(s, i, b1, false).Some? && Scan(s, i, b1, false).value <= Scan(s, i, b2, true).value
    decreases |s| - i
  {
    var c := s[i];
    if c == CLASS_ARRAY || c == CLASS_MAYBE {
      WrittenScanEndsFirst(s, i + 1, b1, b2);
    } else {
      var o1 := if c == CLASS_TUPLE then b1 + 1 else if c == TUPLE_END || c == DICT_END then b1 - 1 else b1;
      var o2 := if c == CLASS_TUPLE || c == CLASS_DICT_ENTRY then b2 + 1
                else if c == TUPLE_END || c == DICT_END then b2 - 1 else b2;
      if o1 != 0 {
        WrittenScanEndsFirst(s, i + 1, o1, o2);
      }
    }
  }

  /** As written, the scan from a well-formed type still ends within it, early after a `{`. */
  lemma {:induction false} WrittenScanType(s: bytes, i: nat, t: Type)
    requires WellFormed(t) && Spells(s, i, Print(t))
    ensures Scan(s, i, 0, false).Some? && Scan(s, i, 0, false).value <= i + |Print(t)|
    decreases t
  {
    match t
    case Single(c) =>
      SpellsAt(s, i, Print(t), 0);
      ScanSingle(s, i, 0, c, false);
    case Tuple(ms) =>
      SpellsTuple(s, i, ms);
      ScanType(s, i, t, true);
      WrittenScanEndsFirst(s, i + 1, 1, 1);
    case DictEntry(k, v) =>
      SpellsDictEntry(s, i, k, v);
    case Maybe(e) =>
      SpellsElement(s, i, t);
      ScanElement(s, i, 0, false);
      WrittenScanType(s, i + 1, e);
    case Array(e) =>
      SpellsElement(s, i, t);
      ScanElement(s, i, 0, false);
      WrittenScanType(s, i + 1, e);
  }

  /** As written, `string_length` gives some length, at most the whole, for every well-formed type at the head. */
  lemma WrittenStringLengthEnds(t: Type, rest: bytes)
    requires WellFormed(t)
    ensures StringLength(Print(t) + rest).Some? && StringLength(Print(t) + rest).value <= |Print(t)|
  {
    SpellsPrefix(t, rest);
    WrittenScanType(Print(t) + rest, 0, t);
  }

  /** As written, every dict entry at the head is reported as one character long. */
  lemma DictEntryLengthIsOne(k: byte, v: Type, rest: bytes)
    requires IsBasicChar(k)
    ensures StringLength(Print(DictEntry(k, v)) + rest) == Some(1)
  {
  }

  /** `"{sv}"`: the code reports 1 where the type is 4 characters long. */
  lemma DictEntryLengthShort()
    ensures StringLength([CLASS_DICT_ENTRY, CLASS_STRING, CLASS_VARIANT, DICT_END]) == Some(1)
    ensures IntendedStringLength([CLASS_DICT_ENTRY, CLASS_STRING, CLASS_VARIANT, DICT_END]) == Some(4)
  {
    var t := DictEntry(CLASS_STRING, Single(CLASS_VARIANT));
    assert Print(t) + [] == [CLASS_DICT_ENTRY, CLASS_STRING, CLASS_VARIANT, DICT_END];
    IntendedStringLengthOfPrinted(t, []);
  }

  /** The unit-test length of `"(ay)"`: 4. */
  lemma LengthOfTupleOfArray()
    ensures StringLength([CLASS_TUPLE, CLASS_ARRAY, CLASS_BYTE, TUPLE_END]) == Some(4)
  {
    var ay := Array(Single(CLASS_BYTE));
    assert PrintAll([ay]) == Print(ay) + PrintAll([]);
    assert Print(Tuple([ay])) + [] == [CLASS_TUPLE, CLASS_ARRAY, CLASS_BYTE, TUPLE_END];
    StringLengthOfPrinted(Tuple([ay]), []);
  }

  /** The unit-test length of `"(u)ay"`: 3, the tuple at its head. */
  lemma LengthOfTupleBeforeArray()
    ensures StringLength([CLASS_TUPLE, CLASS_UINT32, TUPLE_END, CLASS_ARRAY, CLASS_BYTE]) == Some(3)
  {
    var u := Single(CLASS_UINT32);
    assert PrintAll([u]) == Print(u) + PrintAll([]);
    assert Print(Tuple([u])) + [CLASS_ARRAY, CLASS_BYTE]
        == [CLASS_TUPLE, CLASS_UINT32, TUPLE_END, CLASS_ARRAY, CLASS_BYTE];
    StringLengthOfPrinted(Tuple([u]), [CLASS_ARRAY, CLASS_BYTE]);
  }

  /** The unit-test length of `"uu"`: 1, the first `u`. */
  lemma LengthOfBasicBeforeBasic()
    ensures StringLength([CLASS_UINT32, CLASS_UINT32]) == Some(1)
  {
    assert Print(Single(CLASS_UINT32)) + [CLASS_UINT32] == [CLASS_UINT32, CLASS_UINT32];
    StringLengthOfPrinted(Single(CLASS_UINT32), [CLASS_UINT32]);
  }

  // ---------------------------------------------------------------------------------------
  // `normalized`, `first`, `next`, `n_items`
  // ---------------------------------------------------------------------------------------

  /** `normalized`: the type at the head of s, without what follows it. */
  function Normalized(s: bytes): bytes
    requires StringLength(s).Some?
  {
    s[..StringLength(s).value]
  }

  /** On types without dict entries, `normalized` strips exactly what follows the type. */
  lemma NormalizedOfPrinted(t: Type, rest: bytes)
    requires WellFormed(t) && DictFree(t)
    ensures StringLength(Print(t) + rest).Some? && Normalized(Print(t) + rest) == Print(t)
  {
    StringLengthOfPrinted(t, rest);
  }

  /** `first`: the member types of a tuple or dict entry from the first on; None for `()`. */
  function First(s: bytes): Option<bytes>
    requires |s| >= 2 && (s[0] == CLASS_TUPLE || s[0] == CLASS_DICT_ENTRY)
  {
    if s[1] == TUPLE_END then None else Some(s[1..])
  }

  /** `next`: the member types after the one at the head of s; None at a closing bracket or the end. */
  function Next(s: bytes): (r: Option<bytes>)
    requires StringLength(s).Some?
    ensures r.Some? ==> |r.value| < |s|
  {
    var rest := s[StringLength(s).value..];
    if |rest| == 0 || rest[0] == TUPLE_END || rest[0] == DICT_END then None else Some(rest)
  }

  /**
   * How many member types `n_items` counts from the cursor `current` on; None where `next`
   * panics on a member whose length cannot be computed.
   */
  function ItemsFrom(current: Option<bytes>): Option<nat>
    decreases if current.Some? then |current.value| + 1 else 0
  {
    match current
    case None => Some(0)
    case Some(t) =>
      if StringLength(t).None? then None
      else
        match ItemsFrom(Next(t))
        case None => None
        case Some(n) => Some(n + 1)
  }

  function Plus(n: Option<nat>, k: nat): Option<nat> {
    if n.Some? then Some(n.value + k) else None
  }

  /** `n_items`: counts the member types by following `next` from `first`. */
  method NItems(s: bytes) returns (count: Option<nat>)
    requires |s| >= 2 && (s[0] == CLASS_TUPLE || s[0] == CLASS_DICT_ENTRY)
    ensures count == ItemsFrom(First(s))
  {
    var n: nat := 0;
    var current := First(s);
    while current.Some?
      invariant Plus(ItemsFrom(current), n) == ItemsFrom(First(s))
      decreases if current.Some? then |current.value| + 1 else 0
    {
      var length := StringLengthInner(current.value);
      if length.None? {
        return None;
      }
      n := n + 1;
      current := Next(current.value);
    }
    count := Some(n);
  }

  /** Following `next` from member j of a dict-free tuple reaches the remaining members. */
  lemma {:induction false} ItemsOfMembers(ms: seq<Type>, rest: bytes)
    requires ms != [] && AllWellFormed(ms) && AllDictFree(ms)
    ensures ItemsFrom(Some(PrintAll(ms) + [TUPLE_END] + rest)) == Some(|ms|)
    decreases |ms|
  {
    var tail := PrintAll(ms[1..]) + [TUPLE_END] + rest;
    var s := PrintAll(ms) + [TUPLE_END] + rest;
    MemberUnspelled(ms, rest);
    StringLengthOfPrinted(ms[0], tail);
    assert s[|Print(ms[0])|..] == tail;
    if |ms| == 1 {
      assert tail[0] == TUPLE_END;
      assert Next(s) == None;
    } else {
      assert PrintAll(ms[1..]) == Print(ms[1]) + PrintAll(ms[2..]) by {
        assert ms[1..][0] == ms[1] && ms[1..][1..] == ms[2..];
      }
      assert tail[0] == Print(ms[1])[0];
      ClosingIsNotAType(ms[1]);
      assert Next(s) == Some(tail);
      ItemsOfMembers(ms[1..], rest);
    }
  }

  /** No printed type starts with a closing bracket. */
  lemma ClosingIsNotAType(t: Type)
    requires WellFormed(t)
    ensures Print(t)[0] != TUPLE_END && Print(t)[0] != DICT_END
  {
  }

  /** `n_items` of a tuple without dict entries is its number of members. */
  lemma NItemsOfTuple(ms: seq<Type>, rest: bytes)
    requires AllWellFormed(ms) && AllDictFree(ms)
    ensures ItemsFrom(First(Print(Tuple(ms)) + rest)) == Some(|ms|)
  {
    var s := Print(Tuple(ms)) + rest;
    TupleUnspelled(ms, rest);
    if ms == [] {
      assert s[1] == TUPLE_END;
    } else {
      assert s[1] == s[1..][0] == Print(ms[0])[0];
      ClosingIsNotAType(ms[0]);
      ItemsOfMembers(ms, rest);
    }
  }
}
