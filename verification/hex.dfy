/**
 Hexadecimal text for byte arrays: printing, parsing, the grammar the parser accepts,
 and the two round trips.
 */
module Hex {
  import opened Base
  import opened Memory

  const HEX_DIGITS: CString := "0123456789abcdef"

  function HexValue(ch: char): (r: Option<int>)
    ensures r.Some? ==> 0 <= r.value < 16 && ch != ' ' && ch != '\0'
  {
    if '0' <= ch <= '9' then Some(ch as int - '0' as int)
    else if 'a' <= ch <= 'f' then Some(ch as int - 'a' as int + 10)
    else if 'A' <= ch <= 'F' then Some(ch as int - 'A' as int + 10)
    else None
  }

  function HexDigit(v: int): CChar
    requires 0 <= v < 16
  {
    HEX_DIGITS[v]
  }

  function TwoDigits(b: Byte): (t: CString)
    ensures |t| == 2
  {
    [HexDigit(b / 16), HexDigit(b % 16)]
  }

  /** The canonical text: two lower-case digits a byte, one space between bytes. */
  function HexText(bytes: Bytes): CString {
    if |bytes| == 0 then ""
    else if |bytes| == 1 then TwoDigits(bytes[0])
    else TwoDigits(bytes[0]) + " " + HexText(bytes[1..])
  }

  predicate HexPair(text: CString) {
    |text| >= 2 && HexValue(text[0]).Some? && HexValue(text[1]).Some?
  }

  function PairValue(text: CString): Byte
    requires HexPair(text)
  {
    16 * HexValue(text[0]).value + HexValue(text[1]).value
  }

  function SkipSpaces(text: CString): (r: CString)
    ensures |r| <= |text|
  {
    if text != [] && text[0] == ' ' then SkipSpaces(text[1..]) else text
  }

  /** The n bytes a text stands for, if it is accepted. */
  function DecodeHex(text: CString, n: nat): (r: Option<Bytes>)
    ensures r.Some? ==> |r.value| == n > 0
    decreases n
  {
    if n == 0 || !HexPair(text) then None
    else if n == 1 then if |text| == 2 then Some([PairValue(text)]) else None
    else if |text| == 2 || text[2] != ' ' then None
    else
      var rest := DecodeHex(SkipSpaces(text[2..]), n - 1);
      if rest.None? then None else Some([PairValue(text)] + rest.value)
  }

  // -------------------------------------------------------------- the grammar

  ghost predicate StartsWithGap(text: CString, m: nat) {
    1 <= m <= |text| && forall k :: 0 <= k < m ==> text[k] == ' '
  }

  /** Two hex digits for every byte, with one or more spaces between neighbours and nothing else. */
  ghost predicate Spells(text: CString, bytes: Bytes)
    decreases |bytes|
  {
    && bytes != [] && HexPair(text) && PairValue(text) == bytes[0]
    && (if |bytes| == 1 then |text| == 2
        else exists m: nat :: StartsWithGap(text[2..], m) && Spells(text[2..][m..], bytes[1..]))
  }

  lemma {:induction false} SkipGap(text: CString, m: nat)
    requires StartsWithGap(text, m) && (m == |text| || text[m] != ' ')
    ensures SkipSpaces(text) == text[m..]
    decreases m
  {
    if m > 1 {
      SkipGap(text[1..], m - 1);
      assert text[1..][m - 1..] == text[m..];
    } else {
      assert text[1..] == text[m..];
    }
  }

  lemma {:induction false} SkippedIsGap(text: CString) returns (m: nat)
    requires text != [] && text[0] == ' '
    ensures StartsWithGap(text, m) && SkipSpaces(text) == text[m..]
  {
    if |text| > 1 && text[1] == ' ' {
      m := SkippedIsGap(text[1..]);
      assert forall k :: 0 < k < m + 1 ==> text[k] == text[1..][k - 1];
      assert text[1..][m..] == text[m + 1..];
      m := m + 1;
    } else {
      m := 1;
    }
  }

  /** The parser accepts exactly the texts of the grammar, with the bytes they spell. */
  lemma {:induction false} DecodesIffSpells(text: CString, n: nat, bytes: Bytes)
    ensures DecodeHex(text, n) == Some(bytes) <==> |bytes| == n && Spells(text, bytes)
    decreases n
  {
    if |bytes| != n || n == 0 || !HexPair(text) || PairValue(text) != bytes[0] {
    } else if n == 1 {
      assert bytes == [bytes[0]];
    } else if |text| == 2 || text[2] != ' ' {
      assert forall m: nat :: !StartsWithGap(text[2..], m);
    } else {
      DecodesIffSpells(SkipSpaces(text[2..]), n - 1, bytes[1..]);
      MorePairs(text, n, bytes);
    }
  }

  lemma {:induction false} MorePairs(text: CString, n: nat, bytes: Bytes)
    requires |bytes| == n > 1 && HexPair(text) && PairValue(text) == bytes[0] && |text| > 2 && text[2] == ' '
    ensures DecodeHex(text, n) == Some(bytes) <==> DecodeHex(SkipSpaces(text[2..]), n - 1) == Some(bytes[1..])
    ensures Spells(text, bytes) <==> Spells(SkipSpaces(text[2..]), bytes[1..])
  {
    hide SkipSpaces, StartsWithGap, HexPair, PairValue;
    assert bytes == [bytes[0]] + bytes[1..];
    GapIsSkipped(text[2..], bytes[1..]);
  }

  /** Any gap in front of a spelling is the whole run of spaces. */
  lemma {:induction false} GapIsSkipped(text: CString, bytes: Bytes)
    requires text != [] && text[0] == ' '
    ensures (exists m: nat :: StartsWithGap(text, m) && Spells(text[m..], bytes)) <==> Spells(SkipSpaces(text), bytes)
  {
    if m: nat :| StartsWithGap(text, m) && Spells(text[m..], bytes) {
      assert HexPair(text[m..]);
      SkipGap(text, m);
    }
    if Spells(SkipSpaces(text), bytes) {
      var m := SkippedIsGap(text);
      assert Spells(text[m..], bytes);
    }
  }

  lemma {:induction false} DigitValue(v: int)
    requires 0 <= v < 16
    ensures HexValue(HexDigit(v)) == Some(v)
  {
  }

  lemma {:induction false} PrintedPair(b: Byte, rest: CString)
    ensures HexPair(TwoDigits(b) + rest) && PairValue(TwoDigits(b) + rest) == b
  {
    DigitValue(b / 16);
    DigitValue(b % 16);
  }

  lemma {:induction false} SpelledFurther(bytes: Bytes, rest: CString)
    requires |bytes| > 1 && Spells(rest, bytes[1..])
    ensures Spells(TwoDigits(bytes[0]) + " " + rest, bytes)
  {
    var tail: CString := " " + rest;
    var text: CString := TwoDigits(bytes[0]) + tail;
    PrintedPair(bytes[0], tail);
    assert text == TwoDigits(bytes[0]) + " " + rest;
    assert text[2..] == tail;
    assert tail[1..] == rest && StartsWithGap(tail, 1);
  }

  /** Printing then parsing gives the bytes back. */
  lemma {:induction false} PrintedSpells(bytes: Bytes)
    requires bytes != []
    ensures Spells(HexText(bytes), bytes)
    decreases |bytes|
  {
    if |bytes| == 1 {
      PrintedPair(bytes[0], []);
      assert TwoDigits(bytes[0]) + [] == HexText(bytes);
    } else {
      PrintedSpells(bytes[1..]);
      SpelledFurther(bytes, HexText(bytes[1..]));
      assert HexText(bytes) == TwoDigits(bytes[0]) + " " + HexText(bytes[1..]);
    }
  }

  function LowerDigit(c: CChar): CChar {
    if 'A' <= c <= 'F' then (c as int + 32) as char else c
  }

  /** Lower-cases a text and squeezes every run of spaces to one. */
  function Normalized(text: CString): CString {
    if text == [] then []
    else if |text| >= 2 && text[0] == ' ' && text[1] == ' ' then Normalized(text[1..])
    else [LowerDigit(text[0])] + Normalized(text[1..])
  }

  lemma {:induction false} NormalizedGap(text: CString, m: nat)
    requires StartsWithGap(text, m) && m < |text| && text[m] != ' '
    ensures Normalized(text) == " " + Normalized(text[m..])
    decreases m
  {
    if m > 1 {
      NormalizedGap(text[1..], m - 1);
      assert text[1..][m - 1..] == text[m..];
    } else {
      assert text[1..] == text[m..];
    }
  }

  lemma {:induction false} PairIsPrinted(text: CString)
    requires HexPair(text)
    ensures [LowerDigit(text[0])] + [LowerDigit(text[1])] == TwoDigits(PairValue(text))
  {
    LowerOfValue(text[0]);
    LowerOfValue(text[1]);
    var h, l := HexValue(text[0]).value, HexValue(text[1]).value;
    assert (16 * h + l) / 16 == h && (16 * h + l) % 16 == l;
  }

  lemma {:induction false} LowerOfValue(c: CChar)
    requires HexValue(c).Some?
    ensures LowerDigit(c) == HexDigit(HexValue(c).value)
  {
    assert HEX_DIGITS[0] == '0' && HEX_DIGITS[1] == '1' && HEX_DIGITS[2] == '2' && HEX_DIGITS[3] == '3';
    assert HEX_DIGITS[4] == '4' && HEX_DIGITS[5] == '5' && HEX_DIGITS[6] == '6' && HEX_DIGITS[7] == '7';
    assert HEX_DIGITS[8] == '8' && HEX_DIGITS[9] == '9' && HEX_DIGITS[10] == 'a' && HEX_DIGITS[11] == 'b';
    assert HEX_DIGITS[12] == 'c' && HEX_DIGITS[13] == 'd' && HEX_DIGITS[14] == 'e' && HEX_DIGITS[15] == 'f';
  }

  lemma {:induction false} NormalizedPair(text: CString)
    requires HexPair(text)
    ensures Normalized(text) == TwoDigits(PairValue(text)) + Normalized(text[2..])
  {
    PairIsPrinted(text);
    assert text[1..][1..] == text[2..];
    assert Normalized(text[1..]) == [LowerDigit(text[1])] + Normalized(text[2..]);
  }

  lemma {:induction false} JoinedInOrder(a: CString, b: CString, c: CString)
    ensures a + (b + c) == a + b + c
  {
  }

  /** Parsing then printing normalizes the text. */
  lemma {:induction false} ReprintedIsNormalized(text: CString, bytes: Bytes)
    requires Spells(text, bytes)
    ensures HexText(bytes) == Normalized(text)
    decreases |bytes|
  {
    NormalizedPair(text);
    if |bytes| > 1 {
      var m: nat :| StartsWithGap(text[2..], m) && Spells(text[2..][m..], bytes[1..]);
      ReprintedIsNormalized(text[2..][m..], bytes[1..]);
      NormalizedGap(text[2..], m);
      JoinedInOrder(TwoDigits(bytes[0]), " ", HexText(bytes[1..]));
    } else {
      assert Normalized(text[2..]) == [];
    }
  }

  // ------------------------------------------------------------- the printer

  function HexTextSize(n: Size): Outcome<Size> {
    if n == 0 || n > (SIZE_MAX - 1) / 3 then Failure(OutOfRange) else Success(n * 3)
  }

  lemma {:induction false} HexTextLength(bytes: Bytes)
    requires bytes != []
    ensures |HexText(bytes)| == 3 * |bytes| - 1
    decreases |bytes|
  {
    if |bytes| > 1 {
      HexTextLength(bytes[1..]);
    }
  }

  /** The codes of '0' to '9' and 'a' to 'f'. */
  function DigitCodeOf(v: int): int {
    if v < 10 then 48 + v else 87 + v
  }

  /** A digit stands for v exactly when it is the v-th of "0123456789abcdef", in either case. */
  lemma {:induction false} DigitMeans(c: CChar, v: int)
    requires 0 <= v < 16
    ensures HexValue(c) == Some(v) <==> c as int == DigitCodeOf(v) || (v >= 10 && c as int == DigitCodeOf(v) - 32)
    ensures HexDigit(v) as int == DigitCodeOf(v)
  {
    LowerDigitCodes(v);
  }

  lemma {:induction false} LowerDigitCodes(v: int)
    requires 0 <= v < 16
    ensures HexDigit(v) as int == DigitCodeOf(v)
  {
    DigitValue(v);
  }

  /** Byte k is printed at 3k and 3k + 1, high digit first, and a space parts it from the next. */
  lemma {:induction false} TextMeans(bytes: Bytes, k: nat)
    requires k < |bytes|
    ensures |HexText(bytes)| == 3 * |bytes| - 1
    ensures HexText(bytes)[3 * k] as int == DigitCodeOf(bytes[k] / 16)
    ensures HexText(bytes)[3 * k + 1] as int == DigitCodeOf(bytes[k] % 16)
    ensures k + 1 < |bytes| ==> HexText(bytes)[3 * k + 2] as int == 32
    decreases |bytes|
  {
    hide HexDigit, DigitCodeOf;
    HexTextLength(bytes);
    LowerDigitCodes(bytes[k] / 16);
    LowerDigitCodes(bytes[k] % 16);
    if k > 0 {
      TextMeans(bytes[1..], k - 1);
      assert HexText(bytes) == TwoDigits(bytes[0]) + " " + HexText(bytes[1..]);
    }
  }

  /** The size needed, terminator included, exists exactly when there are bytes and it fits size_t. */
  lemma {:induction false} TextSizeMeans(n: Size)
    ensures HexTextSize(n) == if n > 0 && 3 * n < SIZE_MAX then Success(3 * n) else Failure(OutOfRange)
  {
  }

  lemma {:induction false} HexTextOfMore(bytes: Bytes, b: Byte)
    ensures HexText(bytes + [b]) == (if bytes == [] then "" else HexText(bytes) + " ") + TwoDigits(b)
  {
    if bytes != [] {
      HexTextOfMore(bytes[1..], b);
      assert (bytes + [b])[1..] == bytes[1..] + [b];
      if |bytes| == 1 {
        assert bytes[1..] == [];
      }
    }
  }

  /** Prints the bytes and a terminator into dest, if it is large enough. */
  method ToHex(bytes: Bytes, dest: array<char>) returns (ret: Code)
    requires |bytes| <= SIZE_MAX
    modifies dest
    ensures ret ==
      if HexTextSize(|bytes|).Failure? then OutOfRange
      else if dest.Length < 3 * |bytes| then BufferTooSmall
      else Ok
    ensures ret == Ok ==> dest[..3 * |bytes|] == HexText(bytes) + ['\0']
    ensures forall k :: (if ret == Ok then 3 * |bytes| else 0) <= k < dest.Length ==> dest[k] == old(dest[k])
  {
    var required := HexTextSize(|bytes|);
    if required.Failure? {
      return required.code;
    }
    if dest.Length < required.value {
      return BufferTooSmall;
    }
    var offset := 0;
    var i := 0;
    while i < |bytes|
      invariant 0 <= i <= |bytes|
      invariant offset == (if i == 0 then 0 else 3 * i - 1) == |HexText(bytes[..i])|
      invariant dest[..offset] == HexText(bytes[..i])
      invariant forall k :: offset <= k < dest.Length ==> dest[k] == old(dest[k])
    {
      HexTextOfMore(bytes[..i], bytes[i]);
      assert bytes[..i + 1] == bytes[..i] + [bytes[i]];
      ghost var text := HexText(bytes[..i]);
      if i > 0 {
        Append(dest, offset, text, " ");
        text := text + " ";
        offset := offset + 1;
      }
      Append(dest, offset, text, TwoDigits(bytes[i]));
      offset := offset + 2;
      i := i + 1;
    }
    assert bytes[..i] == bytes;
    Append(dest, offset, HexText(bytes), ['\0']);
    return Ok;
  }

  /** Copies more characters behind the `offset` characters already in the buffer. */
  method Append(dest: array<char>, offset: nat, ghost before: string, more: string)
    requires offset == |before| && offset + |more| <= dest.Length && dest[..offset] == before
    modifies dest
    ensures dest[..offset + |more|] == before + more
    ensures forall k :: offset + |more| <= k < dest.Length ==> dest[k] == old(dest[k])
  {
    forall i | 0 <= i < |more| {
      dest[offset + i] := more[i];
    }
  }

  // -------------------------------------------------------------- the parser

  /** The last group must end the text. */
  lemma {:induction false} LastGroup(text: CString, cursor: nat)
    requires cursor <= |text| && HexPair(text[cursor..])
    ensures DecodeHex(text[cursor..], 1).Some? <==> cursor + 2 == |text|
  {
  }

  /** Any other group must be followed by a gap and an accepted rest. */
  lemma {:induction false} NextGroup(text: CString, cursor: nat, n: nat)
    requires cursor <= |text| && HexPair(text[cursor..]) && n > 1
    ensures DecodeHex(text[cursor..], n).Some? <==>
      && cursor + 2 < |text| && text[cursor + 2] == ' '
      && DecodeHex(SkipSpaces(text[cursor + 2..]), n - 1).Some?
  {
    assert text[cursor..][2..] == text[cursor + 2..];
  }

  /** The first pass: checks the whole text before anything is written. */
  method ValidateHexText(text: CString, n: nat) returns (ret: Code)
    requires n > 0
    ensures ret == if DecodeHex(text, n).Some? then Ok else InvalidEncoding
  {
    var cursor := 0;
    var i := 0;
    while i < n
      invariant 0 <= i <= n && cursor <= |text|
      invariant i < n ==> (DecodeHex(text, n).Some? <==> DecodeHex(text[cursor..], n - i).Some?)
      invariant i == n ==> (DecodeHex(text, n).Some? <==> cursor == |text|)
    {
      var first := HexValue(Peek(text, cursor));
      if first.None? {
        return InvalidEncoding;
      }
      var second := HexValue(Peek(text, cursor + 1));
      if second.None? {
        return InvalidEncoding;
      }
      assert HexPair(text[cursor..]);
      if i + 1 < n {
        NextGroup(text, cursor, n - i);
        if Peek(text, cursor + 2) != ' ' {
          return InvalidEncoding;
        }
        cursor := SkipFrom(text, cursor + 2);
      } else {
        LastGroup(text, cursor);
        cursor := cursor + 2;
      }
      i := i + 1;
    }
    return if Peek(text, cursor) == '\0' then Ok else InvalidEncoding;
  }

  /** Moves a cursor past the spaces in front of it. */
  method SkipFrom(text: CString, start: nat) returns (cursor: nat)
    requires start <= |text|
    ensures start <= cursor <= |text| && text[cursor..] == SkipSpaces(text[start..])
  {
    cursor := start;
    while Peek(text, cursor) == ' '
      invariant start <= cursor <= |text|
      invariant SkipSpaces(text[cursor..]) == SkipSpaces(text[start..])
      decreases |text| - cursor
    {
      assert text[cursor..][1..] == text[cursor + 1..];
      cursor := cursor + 1;
    }
  }

  /** An accepted text starts with the pair of the first byte, and goes on with the others. */
  lemma {:induction false} FirstDecoded(text: CString, cursor: nat, bytes: Bytes)
    requires cursor <= |text| && DecodeHex(text[cursor..], |bytes|) == Some(bytes)
    ensures cursor + 2 <= |text| && HexValue(text[cursor]).Some? && HexValue(text[cursor + 1]).Some?
    ensures bytes[0] == 16 * HexValue(text[cursor]).value + HexValue(text[cursor + 1]).value
    ensures |bytes| > 1 ==> DecodeHex(SkipSpaces(text[cursor + 2..]), |bytes| - 1) == Some(bytes[1..])
  {
    assert text[cursor..][2..] == text[cursor + 2..];
  }

  /** Parses a text into n bytes of memory; a refused text leaves the memory alone. */
  method FromHex(mem: array<Byte>, at: nat, n: nat, text: CString) returns (ret: Code)
    requires at + n <= mem.Length
    modifies mem
    ensures (ret, mem[..]) ==
      match DecodeHex(text, n)
      case Some(bytes) => (Ok, Overwrite(old(mem[..]), at, bytes))
      case None => (if n == 0 then InvalidArgument else InvalidEncoding, old(mem[..]))
  {
    if n == 0 {
      return InvalidArgument;
    }
    ret := ValidateHexText(text, n);
    if ret != Ok {
      return;
    }
    WritePairs(mem, at, n, text, DecodeHex(text, n).value);
    return Ok;
  }

  /** The second pass, over a text already accepted. */
  method WritePairs(mem: array<Byte>, at: nat, n: nat, text: CString, ghost bytes: Bytes)
    requires at + n <= mem.Length && DecodeHex(text, n) == Some(bytes)
    modifies mem
    ensures mem[..] == Overwrite(old(mem[..]), at, bytes)
  {
    hide DecodeHex, SkipSpaces;
    var cursor := 0;
    var i := 0;
    assert text[0..] == text;
    while i < n
      invariant 0 <= i <= n && cursor <= |text|
      invariant i < n ==> DecodeHex(text[cursor..], n - i) == Some(bytes[i..])
      invariant mem[..] == Overwrite(old(mem[..]), at, bytes[..i])
    {
      FirstDecoded(text, cursor, bytes[i..]);
      var high := HexValue(Peek(text, cursor)).value;
      var low := HexValue(Peek(text, cursor + 1)).value;
      OverwriteNext(old(mem[..]), at, bytes, i);
      mem[at + i] := 16 * high + low;
      cursor := SkipFrom(text, cursor + 2);
      assert bytes[i..][1..] == bytes[i + 1..];
      i := i + 1;
    }
    assert bytes[..i] == bytes;
  }
}
