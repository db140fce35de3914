/**
 Byte memory: overwriting a stretch of an instance, and the merge of two instances on
 a set of positions.
 */
module Memory {
  import opened Base

  type Bytes = seq<Byte>

  /** The memory after `bytes` have been copied to position `at`. */
  function Overwrite(mem: Bytes, at: nat, bytes: Bytes): (r: Bytes)
    requires at + |bytes| <= |mem|
    ensures |r| == |mem|
    ensures forall p :: 0 <= p < |mem| ==> r[p] == if at <= p < at + |bytes| then bytes[p - at] else mem[p]
  {
    mem[..at] + bytes + mem[at + |bytes|..]
  }

  /** Writing one more byte extends the stretch that has been overwritten. */
  lemma {:induction false} OverwriteNext(mem: Bytes, at: nat, bytes: Bytes, i: nat)
    requires at + |bytes| <= |mem| && i < |bytes|
    ensures Overwrite(mem, at, bytes[..i])[at + i := bytes[i]] == Overwrite(mem, at, bytes[..i + 1])
  {
  }

  /** Copies bytes into an instance, as memcpy does. */
  method Copy(mem: array<Byte>, at: nat, bytes: Bytes)
    requires at + |bytes| <= mem.Length
    modifies mem
    ensures mem[..] == Overwrite(old(mem[..]), at, bytes)
  {
    forall i | 0 <= i < |bytes| {
      mem[at + i] := bytes[i];
    }
  }

  /** The positions from `at` up to but not including `at + n`. */
  ghost function Range(at: nat, n: nat): (s: set<nat>)
    ensures forall p: nat :: p in s <==> at <= p < at + n
  {
    if n == 0 then {} else Range(at, n - 1) + {at + n - 1}
  }
}
