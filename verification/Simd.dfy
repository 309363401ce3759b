/**
 * The vectorised byte searches: whole blocks are compared lane by lane, the comparison is turned
 * into a bit mask, and the number of trailing zeros of the mask is the first matching lane; what
 * is left after the last block is scanned byte by byte.  Memory is an array, a pointer an index.
 */
module Simd {
  import opened Powers

  // A block load; it must not reach past the end of the buffer.
  function Load(mem: array<char>, at: nat, lanes: nat, end: nat): (block: seq<char>)
    requires at + lanes <= end <= mem.Length
    reads mem
    ensures |block| == lanes
  {
    mem[at..at + lanes]
  }

  // The same byte in every lane
  function Set1(c: char, lanes: nat): (v: seq<char>)
    ensures |v| == lanes
  {
    seq(lanes, _ => c)
  }

  // Lane-wise comparison: 0xFF where equal, 0 elsewhere
  function CmpEq(x: seq<char>, y: seq<char>): (v: seq<nat>)
    requires |x| == |y|
    ensures |v| == |x|
  {
    seq(|x|, i requires 0 <= i < |x| => if x[i] == y[i] then 0xFF else 0)
  }

  // The top bits of the lanes, the first lane lowest
  function MoveMask(v: seq<nat>): nat {
    if v == [] then 0 else (if v[0] >= 0x80 then 1 else 0) + 2 * MoveMask(v[1..])
  }

  function TrailingZeros(mask: nat): nat
    requires mask > 0
  {
    if mask % 2 == 1 then 0 else 1 + TrailingZeros(mask / 2)
  }

  // The mask is non-zero iff a lane is set, and its trailing zeros then lead to the first such lane.
  lemma {:induction false} MaskFindsFirstLane(v: seq<nat>)
    ensures MoveMask(v) != 0 <==> exists i :: 0 <= i < |v| && v[i] >= 0x80
    ensures MoveMask(v) != 0 ==>
            var k := TrailingZeros(MoveMask(v));
            k < |v| && v[k] >= 0x80 && forall i :: 0 <= i < k ==> v[i] < 0x80
  {
    if v != [] {
      MaskFindsFirstLane(v[1..]);
      assert forall i :: 1 <= i < |v| ==> v[i] == v[1..][i - 1];
      if v[0] >= 0x80 {
        assert TrailingZeros(MoveMask(v)) == 0;
      } else if MoveMask(v) != 0 {
        var k := TrailingZeros(MoveMask(v[1..]));
        assert MoveMask(v) / 2 == MoveMask(v[1..]) && MoveMask(v) % 2 == 0;
        assert v[k + 1] >= 0x80;
      }
    }
  }

  // The mask fits in as many bits as there are lanes.
  lemma {:induction false} MaskWidth(v: seq<nat>)
    ensures |v| == 16 ==> MoveMask(v) < 0x1_0000
    ensures |v| == 32 ==> MoveMask(v) < 0x1_0000_0000
  {
    MaskBelowPower(v);
    assert PowerOfTwo(16) == 0x1_0000 by { assert PowerOfTwo(8) == 256; }
    assert PowerOfTwo(32) == 0x1_0000_0000 by {
      assert PowerOfTwo(16) == 0x1_0000;
      assert PowerOfTwo(24) == 0x100_0000;
    }
  }

  lemma {:induction false} MaskBelowPower(v: seq<nat>)
    ensures MoveMask(v) < PowerOfTwo(|v|)
  {
    if v != [] {
      MaskBelowPower(v[1..]);
    }
  }

  // r is where the plain scan for c from start to end stops: the first match, or end.
  ghost predicate IsFirstMatch(mem: array<char>, start: nat, end: nat, c: char, r: nat)
    requires end <= mem.Length
    reads mem
  {
    if start >= end then r == end
    else
      && start <= r <= end
      && (forall k :: start <= k < r ==> mem[k] != c)
      && (r < end ==> mem[r] == c)
  }

  // One block: no lane matches, or the mask leads to the first match.
  lemma BlockFindsFirstMatch(mem: array<char>, at: nat, lanes: nat, end: nat, c: char)
    requires at + lanes <= end <= mem.Length
    ensures var mask := MoveMask(CmpEq(Load(mem, at, lanes, end), Set1(c, lanes)));
            if mask == 0 then forall k :: at <= k < at + lanes ==> mem[k] != c
            else var k := at + TrailingZeros(mask);
                 k < at + lanes && mem[k] == c && forall i :: at <= i < k ==> mem[i] != c
  {
    var block := Load(mem, at, lanes, end);
    var v := CmpEq(block, Set1(c, lanes));
    MaskFindsFirstLane(v);
    assert forall k :: at <= k < at + lanes ==> mem[k] == block[k - at] && (v[k - at] >= 0x80 <==> mem[k] == c);
  }

  /** `find_char_256_avx2` */
  method FindChar256(mem: array<char>, start: nat, end: nat, c: char) returns (r: nat)
    requires end <= mem.Length
    ensures IsFirstMatch(mem, start, end, c, r)
  {
    var at := start;
    while at + 32 <= end
      invariant start <= at && (start <= end ==> at <= end) && (start > end ==> at == start)
      invariant forall k :: start <= k < at ==> k < mem.Length && mem[k] != c
    {
      var mask := MoveMask(CmpEq(Load(mem, at, 32, end), Set1(c, 32)));
      BlockFindsFirstMatch(mem, at, 32, end, c);
      if mask != 0 {
        return at + TrailingZeros(mask);
      }
      at := at + 32;
    }
    while at < end
      invariant start <= at && (start <= end ==> at <= end) && (start > end ==> at == start)
      invariant forall k :: start <= k < at ==> k < mem.Length && mem[k] != c
    {
      if mem[at] == c {
        return at;
      }
      at := at + 1;
    }
    r := end;
  }

  /** `find_char_128_sse4_2`; its block loop stops one block earlier when the rest is exactly one block. */
  method FindChar128(mem: array<char>, start: nat, end: nat, c: char) returns (r: nat)
    requires end <= mem.Length
    ensures IsFirstMatch(mem, start, end, c, r)
  {
    var at := start;
    while at + 16 < end
      invariant start <= at && (start <= end ==> at <= end) && (start > end ==> at == start)
      invariant forall k :: start <= k < at ==> k < mem.Length && mem[k] != c
    {
      var mask := MoveMask(CmpEq(Load(mem, at, 16, end), Set1(c, 16)));
      BlockFindsFirstMatch(mem, at, 16, end, c);
      if mask != 0 {
        return at + TrailingZeros(mask);
      }
      at := at + 16;
    }
    while at < end
      invariant start <= at && (start <= end ==> at <= end) && (start > end ==> at == start)
      invariant forall k :: start <= k < at ==> k < mem.Length && mem[k] != c
    {
      if mem[at] == c {
        return at;
      }
      at := at + 1;
    }
    r := end;
  }

  // The plain scan
  function Scan(mem: array<char>, start: nat, end: nat, c: char): nat
    requires end <= mem.Length
    reads mem
    decreases end - start
  {
    if start >= end then end
    else if mem[start] == c then start
    else Scan(mem, start + 1, end, c)
  }

  // The first match is what the plain scan finds, so both searches agree with it and each other.
  lemma {:induction false} FirstMatchIsScan(mem: array<char>, start: nat, end: nat, c: char, r: nat)
    requires end <= mem.Length
    ensures IsFirstMatch(mem, start, end, c, r) <==> r == Scan(mem, start, end, c)
    decreases end - start
  {
    if start < end && mem[start] != c {
      FirstMatchIsScan(mem, start + 1, end, c, r);
    }
  }
}
