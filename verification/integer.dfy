/**
 Integer fields of 1, 2, 4 or 8 bytes: little-endian two's complement, with range
 checks on every store.
 */
module Integers {
  import opened Base
  import opened Memory
  import opened Meta

  type Int64 = v: int | -0x8000_0000_0000_0000 <= v <= 0x7FFF_FFFF_FFFF_FFFF

  type UInt64 = v: int | 0 <= v <= 0xFFFF_FFFF_FFFF_FFFF

  /** The number of values of an n-byte integer. */
  function Span(n: nat): (s: nat)
    ensures s > 0
  {
    if n == 0 then 1 else 256 * Span(n - 1)
  }

  lemma {:induction false} SpanOfSupported()
    ensures Span(1) == 0x100 && Span(2) == 0x1_0000 && Span(4) == 0x1_0000_0000
    ensures Span(8) == 0x1_0000_0000_0000_0000
  {
    assert Span(3) == 0x100_0000 && Span(5) == 0x100_0000_0000;
    assert Span(6) == 0x1_0000_0000_0000 && Span(7) == 0x100_0000_0000_0000;
  }

  /** The value of little-endian bytes. */
  function Unsigned(bytes: Bytes): nat {
    if bytes == [] then 0 else bytes[0] + 256 * Unsigned(bytes[1..])
  }

  /** The n little-endian bytes of a value. */
  function UnsignedBytes(n: nat, v: nat): (r: Bytes)
    ensures |r| == n
  {
    if n == 0 then [] else [v % 256] + UnsignedBytes(n - 1, v / 256)
  }

  /** The two's complement value of little-endian bytes. */
  function Signed(bytes: Bytes): int {
    if 2 * Unsigned(bytes) >= Span(|bytes|) then Unsigned(bytes) - Span(|bytes|) else Unsigned(bytes)
  }

  function SignedBytes(n: nat, v: int): Bytes
    requires 0 <= v + Span(n)
  {
    UnsignedBytes(n, if v < 0 then v + Span(n) else v)
  }

  predicate FitsUnsigned(n: nat, v: int) {
    0 <= v < Span(n)
  }

  predicate FitsSigned(n: nat, v: int) {
    0 - Span(n) <= 2 * v < Span(n)
  }

  lemma {:induction false} UnsignedInRange(bytes: Bytes)
    ensures Unsigned(bytes) < Span(|bytes|)
  {
    if bytes != [] {
      UnsignedInRange(bytes[1..]);
    }
  }

  lemma {:induction false} UnsignedReadsBack(n: nat, v: nat)
    requires FitsUnsigned(n, v)
    ensures Unsigned(UnsignedBytes(n, v)) == v
  {
    if n > 0 {
      UnsignedReadsBack(n - 1, v / 256);
      assert UnsignedBytes(n, v)[1..] == UnsignedBytes(n - 1, v / 256);
    }
  }

  lemma {:induction false} LowByteFirst(b: Byte, high: nat)
    ensures (b + 256 * high) % 256 == b && (b + 256 * high) / 256 == high
  {
  }

  lemma {:induction false} UnsignedWritesBack(bytes: Bytes)
    ensures UnsignedBytes(|bytes|, Unsigned(bytes)) == bytes
  {
    if bytes != [] {
      UnsignedWritesBack(bytes[1..]);
      LowByteFirst(bytes[0], Unsigned(bytes[1..]));
      assert bytes == [bytes[0]] + bytes[1..];
    }
  }

  // ---------------------------------------------------- positional values

  /** The sum of the first n bytes, byte i counting 256 to the power i. */
  ghost function Weighted(bytes: Bytes, n: nat): nat
    requires n <= |bytes|
  {
    if n == 0 then 0 else Weighted(bytes, n - 1) + bytes[n - 1] * Span(n - 1)
  }

  /** The top bit of the last byte counts negatively. */
  ghost function TwosComplement(bytes: Bytes): int
    requires bytes != []
  {
    if bytes[|bytes| - 1] >= 0x80 then Weighted(bytes, |bytes|) - Span(|bytes|) else Weighted(bytes, |bytes|)
  }

  lemma {:induction false} UnsignedOfMore(bytes: Bytes, b: Byte)
    ensures Unsigned(bytes + [b]) == Unsigned(bytes) + b * Span(|bytes|)
  {
    if bytes != [] {
      UnsignedOfMore(bytes[1..], b);
      assert (bytes + [b])[1..] == bytes[1..] + [b];
      assert b * (256 * Span(|bytes| - 1)) == 256 * (b * Span(|bytes| - 1));
    } else {
      assert [b][1..] == [];
    }
  }

  lemma {:induction false} UnsignedIsWeighted(bytes: Bytes, n: nat)
    requires n <= |bytes|
    ensures Unsigned(bytes[..n]) == Weighted(bytes, n)
  {
    if n > 0 {
      UnsignedIsWeighted(bytes, n - 1);
      UnsignedOfMore(bytes[..n - 1], bytes[n - 1]);
      assert bytes[..n] == bytes[..n - 1] + [bytes[n - 1]];
    }
  }

  lemma {:induction false} SignedIsTwosComplement(bytes: Bytes)
    requires bytes != []
    ensures Unsigned(bytes) == Weighted(bytes, |bytes|) && Signed(bytes) == TwosComplement(bytes)
  {
    var n := |bytes|;
    var top, s := bytes[n - 1], Span(n - 1);
    assert bytes[..n] == bytes;
    UnsignedIsWeighted(bytes, n);
    UnsignedIsWeighted(bytes, n - 1);
    UnsignedInRange(bytes[..n - 1]);
    TopByteDecides(Unsigned(bytes[..n - 1]), top, s);
  }

  lemma {:induction false} TopByteDecides(low: nat, top: Byte, s: nat)
    requires low < s
    ensures 2 * (low + top * s) >= 256 * s <==> top >= 0x80
  {
    if top >= 0x80 {
      assert (top - 0x80) * s >= 0;
    } else {
      assert (0x7F - top) * s >= 0;
    }
  }

  /** What is stored is read back, for every value of the width. */
  lemma {:induction false} SignedReadsBack(n: nat, v: int)
    requires FitsSigned(n, v)
    ensures Signed(SignedBytes(n, v)) == v
  {
    UnsignedReadsBack(n, if v < 0 then v + Span(n) else v);
  }

  /** What is read can always be stored again, and restores the same bytes. */
  lemma {:induction false} SignedWritesBack(bytes: Bytes)
    ensures FitsSigned(|bytes|, Signed(bytes)) && SignedBytes(|bytes|, Signed(bytes)) == bytes
  {
    UnsignedInRange(bytes);
    UnsignedWritesBack(bytes);
  }

  function LoadSigned(mem: Bytes, at: nat, size: nat): Outcome<int>
    requires at + size <= |mem|
  {
    if SupportedSize(size) then Success(Signed(mem[at..at + size])) else Failure(Unsupported)
  }

  function LoadUnsigned(mem: Bytes, at: nat, size: nat): Outcome<int>
    requires at + size <= |mem|
  {
    if SupportedSize(size) then Success(Unsigned(mem[at..at + size])) else Failure(Unsupported)
  }

  /** A loaded value always fits the 64-bit type it is returned in. */
  lemma {:induction false} LoadedFits(mem: Bytes, at: nat, size: nat)
    requires at + size <= |mem| && SupportedSize(size)
    ensures -0x8000_0000_0000_0000 <= Signed(mem[at..at + size]) <= 0x7FFF_FFFF_FFFF_FFFF
    ensures 0 <= Unsigned(mem[at..at + size]) <= 0xFFFF_FFFF_FFFF_FFFF
  {
    SpanOfSupported();
    UnsignedInRange(mem[at..at + size]);
  }

  /** The memory and result code of a store that checks its width. */
  function Stored(mem: Bytes, at: nat, size: nat, fits: bool, bytes: Bytes): (r: (Code, Bytes))
    requires at + |bytes| <= |mem|
    ensures |r.1| == |mem|
  {
    if !SupportedSize(size) then (Unsupported, mem)
    else if !fits then (OutOfRange, mem)
    else (Ok, Overwrite(mem, at, bytes))
  }

  function StoreSignedTo(mem: Bytes, at: nat, size: nat, v: int): (r: (Code, Bytes))
    requires at + size <= |mem|
    ensures |r.1| == |mem|
  {
    Stored(mem, at, size, FitsSigned(size, v), if FitsSigned(size, v) then SignedBytes(size, v) else [])
  }

  function StoreUnsignedTo(mem: Bytes, at: nat, size: nat, v: int): (r: (Code, Bytes))
    requires at + size <= |mem|
    ensures |r.1| == |mem|
  {
    Stored(mem, at, size, FitsUnsigned(size, v), if FitsUnsigned(size, v) then UnsignedBytes(size, v) else [])
  }

  method StoreSigned(mem: array<Byte>, at: nat, size: nat, value: Int64) returns (ret: Code)
    requires at + size <= mem.Length
    modifies mem
    ensures (ret, mem[..]) == StoreSignedTo(old(mem[..]), at, size, value)
  {
    SpanOfSupported();
    match size {
    case 1 =>
      if value < -0x80 || value > 0x7F {
        return OutOfRange;
      }
    case 2 =>
      if value < -0x8000 || value > 0x7FFF {
        return OutOfRange;
      }
    case 4 =>
      if value < -0x8000_0000 || value > 0x7FFF_FFFF {
        return OutOfRange;
      }
    case 8 =>
    case _ =>
      return Unsupported;
    }
    Copy(mem, at, SignedBytes(size, value));
    return Ok;
  }

  method StoreUnsigned(mem: array<Byte>, at: nat, size: nat, value: UInt64) returns (ret: Code)
    requires at + size <= mem.Length
    modifies mem
    ensures (ret, mem[..]) == StoreUnsignedTo(old(mem[..]), at, size, value)
  {
    SpanOfSupported();
    match size {
    case 1 =>
      if value > 0xFF {
        return OutOfRange;
      }
    case 2 =>
      if value > 0xFFFF {
        return OutOfRange;
      }
    case 4 =>
      if value > 0xFFFF_FFFF {
        return OutOfRange;
      }
    case 8 =>
    case _ =>
      return Unsupported;
    }
    Copy(mem, at, UnsignedBytes(size, value));
    return Ok;
  }
}
