/** A slice of 4-byte groups read as little-endian u32 values (gvdb/src/read/slice.rs). */
module ReadSlice {
  import opened GvdbUtil
  import opened Wrappers

  type Group = g: bytes | |g| == 4 witness [0, 0, 0, 0]

  datatype SliceLEu32 = SliceLEu32(groups: seq<Group>)

  /** `SliceLEu32::get` */
  function Get(s: SliceLEu32, index: nat): (r: Option<u32>)
    ensures r.Some? <==> index < |s.groups|
    ensures r.Some? ==> LeBytes32(r.value) == s.groups[index]
  {
    if index < |s.groups| then
      FromLe32RoundTrip(s.groups[index]);
      Some(FromLe32(s.groups[index]))
    else None
  }

  /** `SliceLEu32::len` */
  function Len(s: SliceLEu32): nat
  {
    |s.groups|
  }

  /** `SliceLEu32::is_empty` */
  predicate IsEmpty(s: SliceLEu32)
  {
    |s.groups| == 0
  }

  /** The slice made of the `to_le_bytes` images of some values. */
  function FromValues(xs: seq<u32>): (s: SliceLEu32)
    ensures Len(s) == |xs|
  {
    SliceLEu32(seq(|xs|, i requires 0 <= i < |xs| => LeBytes32(xs[i])))
  }

  /** Reading back the groups written by `u32::to_le_bytes` gives the original values. */
  lemma GetFromValues(xs: seq<u32>, i: nat)
    ensures Get(FromValues(xs), i) == if i < |xs| then Some(xs[i]) else None
    ensures IsEmpty(FromValues(xs)) <==> xs == []
  {
    if i < |xs| {
      LeBytes32RoundTrip(xs[i]);
    }
  }

  /** The value of a group, spelled out as the four weighted bytes. */
  lemma GetWeights(s: SliceLEu32, i: nat)
    requires i < Len(s)
    ensures var g := s.groups[i];
      Get(s, i) == Some(g[0] as int + 0x100 * g[1] as int + 0x1_0000 * g[2] as int + 0x100_0000 * g[3] as int)
  {
    var g := s.groups[i];
    assert FromLe(g[3..]) == g[3] by { assert g[3..][1..] == []; }
    assert FromLe(g[2..]) == g[2] + 256 * FromLe(g[3..]) by { assert g[2..][1..] == g[3..]; }
    assert FromLe(g[1..]) == g[1] + 256 * FromLe(g[2..]) by { assert g[1..][1..] == g[2..]; }
  }
}
