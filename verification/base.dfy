/**
 The C vocabulary every other module uses: machine sizes, bytes, NUL-terminated
 strings and the result codes.
 */
module Base {

  /** The largest value of size_t on x86_64. */
  const SIZE_MAX: nat := 0xFFFF_FFFF_FFFF_FFFF

  /** The largest value of int. */
  const INT_MAX: nat := 0x7FFF_FFFF

  type Size = n: nat | n <= SIZE_MAX

  type Byte = b: int | 0 <= b < 256

  /** A character of a C string: one byte, never NUL. */
  type CChar = c: char | 0 < c as int < 256 witness 'a'

  /** The characters of a C string before its terminator. */
  type CString = seq<CChar>

  datatype Option<+T> = None | Some(value: T)

  datatype Code =
    | Ok
    | InvalidArgument
    | CorruptDescriptor
    | OutOfRange
    | NotFound
    | OutOfMemory
    | Skipped
    | Unsupported
    | InvalidEncoding
    | BufferTooSmall
    | MissingRequired
    | DuplicateKey

  type ErrorCode = c: Code | c != Ok witness InvalidArgument

  datatype Outcome<+T> = Success(value: T) | Failure(code: ErrorCode)

  /** Reads `text[i]`; only the terminator may be read past the last character. */
  function Peek(text: CString, i: nat): char
    requires i <= |text|
  {
    if i < |text| then text[i] else '\0'
  }

  ghost predicate Distinct<T>(s: seq<T>) {
    forall i, j :: 0 <= i < j < |s| ==> s[i] != s[j]
  }

  /** A sequence of distinct numbers below n has at most n members. */
  lemma {:induction false} DistinctBound(s: seq<nat>, n: nat)
    requires Distinct(s) && forall i :: 0 <= i < |s| ==> s[i] < n
    ensures |s| <= n
  {
    assert s != [] ==> s[0] < n;
    if n == 0 {
    } else if exists i :: 0 <= i < |s| && s[i] == n - 1 {
      var i :| 0 <= i < |s| && s[i] == n - 1;
      var rest := s[..i] + s[i + 1..];
      forall j | 0 <= j < |rest| ensures rest[j] < n - 1 {
        assert rest[j] == if j < i then s[j] else s[j + 1];
      }
      DistinctBound(rest, n - 1);
    } else {
      DistinctBound(s, n - 1);
    }
  }

  /** The division test the code uses detects exactly the products that overflow. */
  lemma ProductFits(count: Size, size: Size)
    requires size > 0
    ensures count > SIZE_MAX / size <==> count * size > SIZE_MAX
    ensures count * size == size * count
  {
    if count > SIZE_MAX / size {
      assert count * size >= (SIZE_MAX / size + 1) * size;
    } else {
      assert count * size <= (SIZE_MAX / size) * size;
    }
  }
}
