/** Stretches of memory that two memories have in common, all around the address space. */
module Regions {
  import opened Words
  import opened Memories

  /** The `i`-th byte from an address upwards. */
  function Above(base: int, i: int): (k: int)
    ensures 0 <= k < MEM_MAX
  {
    Cell(base + i)
  }

  /** The `live` bytes from `base` upwards are the same in both memories. */
  ghost predicate SameAbove(ram: Ram, ram': Ram, base: int, live: nat) {
    forall i :: 0 <= i < live ==> ram[Above(base, i)] == ram'[Above(base, i)]
  }

  /** The bytes above an address are those above an address further down, counted from there. */
  lemma AboveShift(base: int, k: int, i: int)
    ensures Above(Wrap32(base - k), i + k) == Above(base, i)
  {
    hide Wrap32, Cell;
    WrapCell(base - k);
    SameCell(Wrap32(base - k), base - k, i + k);
  }

  lemma SameAboveShift(ram: Ram, ram': Ram, base: int, k: nat, live: nat)
    requires SameAbove(ram, ram', Wrap32(base - k), live + k)
    ensures SameAbove(ram, ram', base, live)
  {
    hide Wrap32, Cell, Above;
    forall i | 0 <= i < live
      ensures ram[Above(base, i)] == ram'[Above(base, i)]
    {
      AboveShift(base, k, i);
      assert ram[Above(Wrap32(base - k), i + k)] == ram'[Above(Wrap32(base - k), i + k)];
    }
  }

  lemma SameAboveTransitive(ram: Ram, ram': Ram, ram'': Ram, base: int, live: nat)
    requires SameAbove(ram, ram', base, live) && SameAbove(ram', ram'', base, live)
    ensures SameAbove(ram, ram'', base, live)
  {
    hide Above;
  }

  lemma SameAboveUp(ram: Ram, ram': Ram, base: int, k: int, live: int)
    requires 0 <= k && live >= 0 && SameAbove(ram, ram', base, live) && k <= live
    ensures SameAbove(ram, ram', Wrap32(base + k), live - k)
  {
    hide Wrap32, Cell, Above;
    var up := Wrap32(base + k);
    forall i | 0 <= i < live - k
      ensures ram[Above(up, i)] == ram'[Above(up, i)]
    {
      AboveShift(base, 0 - k, i + k);
      assert ram[Above(base, i + k)] == ram'[Above(base, i + k)];
    }
  }

  lemma SameAboveSelf(ram: Ram, base: int, live: nat)
    ensures SameAbove(ram, ram, base, live)
  {
  }

  // ---- Blocks in memory ----

  /** `n` bytes of memory, all around the address space. */
  function Peek(ram: Ram, at: int, n: nat): (s: seq<u8>)
    ensures |s| == n
  {
    seq<u8>(n, i => Read8(ram, at + i))
  }

  function Poke(ram: Ram, at: int, bytes: seq<u8>): Ram {
    if bytes == [] then ram
    else Write8(Poke(ram, at, bytes[..|bytes| - 1]), at + |bytes| - 1, bytes[|bytes| - 1])
  }

  lemma {:induction false} PokedByte(ram: Ram, at: int, bytes: seq<u8>, i: nat)
    requires i < |bytes| <= MEM_MAX
    ensures Read8(Poke(ram, at, bytes), at + i) == bytes[i]
  {
    hide Cell;
    if i < |bytes| - 1 {
      DistinctCells(at, i, |bytes| - 1);
      PokedByte(ram, at, bytes[..|bytes| - 1], i);
    }
  }

  lemma {:induction false} PokedOutside(ram: Ram, at: int, bytes: seq<u8>, k: int)
    requires 0 <= k < MEM_MAX && forall i :: 0 <= i < |bytes| ==> Above(at, i) != k
    ensures Poke(ram, at, bytes)[k] == ram[k]
  {
    hide Cell;
    if bytes != [] {
      var last := |bytes| - 1;
      assert Above(at, last) != k;
      PokedOutside(ram, at, bytes[..last], k);
    }
  }

  lemma PeekPoke(ram: Ram, at: int, bytes: seq<u8>)
    requires |bytes| <= MEM_MAX
    ensures Peek(Poke(ram, at, bytes), at, |bytes|) == bytes
  {
    hide Poke, Read8;
    forall i | 0 <= i < |bytes|
      ensures Read8(Poke(ram, at, bytes), at + i) == bytes[i]
    {
      PokedByte(ram, at, bytes, i);
    }
  }

  /** Writing two blocks in a row is writing their concatenation. */
  lemma {:induction false} PokeTwice(ram: Ram, at: int, first: seq<u8>, second: seq<u8>)
    ensures Poke(Poke(ram, at, first), at + |first|, second) == Poke(ram, at, first + second)
  {
    hide Write8;
    if second == [] {
      assert first + second == first;
    } else {
      var last := |second| - 1;
      PokeTwice(ram, at, first, second[..last]);
      assert (first + second)[..|first + second| - 1] == first + second[..last];
    }
  }
}
