/** Byte-addressed memory with block copies; what was never written reads as zero. */
module Bytes {

  type Memory = map<nat, nat>

  function Byte(mem: Memory, a: nat): nat
  {
    if a in mem then mem[a] else 0
  }

  function Blit(mem: Memory, dest: nat, data: seq<nat>): (r: Memory)
    ensures forall a: nat {:trigger Byte(r, a)} :: Byte(r, a) == BlitByte(mem, dest, data, a)
  {
    mem + (map a: nat | dest <= a < dest + |data| :: BlitByte(mem, dest, data, a))
  }

  function BlitByte(mem: Memory, dest: nat, data: seq<nat>, a: nat): nat
  {
    if dest <= a < dest + |data| then data[a - dest] else Byte(mem, a)
  }

  function Zeros(n: nat): (z: seq<nat>)
    ensures |z| == n && forall i :: 0 <= i < n ==> z[i] == 0
  {
    seq(n, _ => 0)
  }

  /** A loaded segment's byte `k`: its file bytes, then zeros. */
  function SegmentByte(file: seq<nat>, k: nat): nat
  {
    if k < |file| then file[k] else 0
  }
}
