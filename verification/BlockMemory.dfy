/** Coefficient blocks in memory, in natural order, and what they hold in zigzag order. */
module BlockMemory {
  import opened NaturalOrder

  /** The coefficient arrays of an image: separate blocks of 64 in natural order. */
  ghost predicate Memory(mem: seq<array<int>>) {
    && (forall i :: 0 <= i < |mem| ==> mem[i].Length == 64)
    && forall i, j :: 0 <= i < j < |mem| ==> mem[i] != mem[j]
  }

  ghost function Held(mem: seq<array<int>>): (r: seq<Block>)
    requires Memory(mem)
    reads mem
    ensures |r| == |mem|
  {
    seq(|mem|, i requires 0 <= i < |mem| reads mem => Zig(mem[i][..]))
  }

  /** Only block p changed. */
  lemma HeldUpdate(mem: seq<array<int>>, was: seq<Block>, p: nat)
    requires Memory(mem) && |was| == |mem| && p < |mem|
    requires forall i :: 0 <= i < |mem| && i != p ==> Zig(mem[i][..]) == was[i]
    ensures Held(mem) == was[p := Zig(mem[p][..])]
  {
    hide Zig;
  }

  lemma MemoryAt(mem: seq<array<int>>, p: nat)
    requires Memory(mem) && p < |mem|
    ensures mem[p].Length == 64 && forall i :: 0 <= i < |mem| && i != p ==> mem[i] != mem[p]
    ensures forall i :: 0 <= i < |mem| ==> mem[i].Length == 64 && Held(mem)[i] == Zig(mem[i][..])
  {
    hide Zig;
  }

  /** Stores coefficient k of a block. */
  method Store(block: array<int>, k: nat, x: int)
    requires block.Length == 64 && k < 64
    modifies block
    ensures Zig(block[..]) == Zig(old(block[..]))[k := x]
  {
    hide Order;
    ZigUpdate(block[..], k, x);
    block[Order(k)] := x;
    assert block[..] == old(block[..])[Order(k) := x];
  }
}
