/**
 * Bounds-checked buffer primitives of `external/basics.h`.
 *
 * A C buffer `(void *self, size_t size)` is an `array<Byte>` whose length is
 * `size` when the primitive writes into it, and a `seq<Byte>` when it only
 * reads it. Positions are unbounded naturals, and the bounds checks
 * `size < position + bytes` are made on them without wrap-around. In C the
 * sum is a `size_t` (the source's FIXME comments say so): a position within
 * `bytes` of 2^64 wraps the sum, passes the check and reads outside the
 * buffer, which is undefined behaviour. The model treats such a read as out
 * of bounds instead.
 */
module Basics {

  type Byte = x: int | 0 <= x < 256
  type U16 = x: int | 0 <= x < 0x1_0000

  /** The byte value of a character literal. */
  function B(c: char): Byte
    requires c as int < 256
  {
    c as int
  }

  function Min(a: int, b: int): int { if a <= b then a else b }

  // ---------------------------------------------------------------------------
  // basics_align
  // ---------------------------------------------------------------------------

  /** `basics_align(value, boundary)`: round `value` up to a multiple of `boundary`. */
  function Align(value: nat, boundary: nat): (r: nat)
    requires boundary > 0
    ensures value <= r < value + boundary
    ensures r % boundary == 0
  {
    AlignBounds(value, boundary);
    ((value + boundary - 1) / boundary) * boundary
  }

  lemma AlignBounds(value: nat, boundary: nat)
    requires boundary > 0
    ensures var r := ((value + boundary - 1) / boundary) * boundary;
            value <= r < value + boundary && r % boundary == 0
  {
    var t := value + boundary - 1;
    var q, rem := t / boundary, t % boundary;
    assert t == q * boundary + rem && 0 <= rem < boundary;
    MultipleMod(q, boundary);
  }

  lemma MultipleMod(q: nat, boundary: nat)
    requires boundary > 0
    ensures (q * boundary) % boundary == 0
  {
    var r := q * boundary;
    var qq, m := r / boundary, r % boundary;
    assert r == qq * boundary + m && 0 <= m < boundary;
    if qq < q {
      MulAtLeast(boundary, q - qq);
    } else if qq > q {
      MulAtLeast(boundary, qq - q);
    } else {
      assert m == 0;
    }
  }

  /** `k` copies of `b` add up to at least `b` when there is at least one. */
  lemma {:induction false} MulAtLeast(b: nat, k: nat)
    ensures k >= 1 ==> k * b >= b
  {
    if k > 1 {
      MulAtLeast(b, k - 1);
      assert k * b == (k - 1) * b + b;
    }
  }

  /** The aligned value is the least multiple of `boundary` that is at least `value`. */
  lemma AlignIsLeast(value: nat, boundary: nat, m: nat)
    requires boundary > 0
    requires m % boundary == 0 && value <= m
    ensures Align(value, boundary) <= m
  {
    var r := Align(value, boundary);
    var qr, qm := r / boundary, m / boundary;
    if qm < qr {
      MulAtLeast(boundary, qr - qm);
    }
  }

  /** Aligning an already aligned value changes nothing. */
  lemma AlignIdempotent(value: nat, boundary: nat)
    requires boundary > 0
    ensures Align(Align(value, boundary), boundary) == Align(value, boundary)
  {
    var r := Align(value, boundary);
    AlignIsLeast(r, boundary, r);
  }

  // ---------------------------------------------------------------------------
  // basics_utf8_get_stride
  // ---------------------------------------------------------------------------

  /** The stride table exactly as the source lists it: sixteen rows of sixteen entries. */
  const Utf8StrideTable: seq<seq<int>> :=
    [[ 1,  1,  1,  1,  1,  1,  1,  1,  1,  1,  1,  1,  1,  1,  1,  1],
     [ 1,  1,  1,  1,  1,  1,  1,  1,  1,  1,  1,  1,  1,  1,  1,  1],
     [ 1,  1,  1,  1,  1,  1,  1,  1,  1,  1,  1,  1,  1,  1,  1,  1],
     [ 1,  1,  1,  1,  1,  1,  1,  1,  1,  1,  1,  1,  1,  1,  1,  1],
     [ 1,  1,  1,  1,  1,  1,  1,  1,  1,  1,  1,  1,  1,  1,  1,  1],
     [ 1,  1,  1,  1,  1,  1,  1,  1,  1,  1,  1,  1,  1,  1,  1,  1],
     [ 1,  1,  1,  1,  1,  1,  1,  1,  1,  1,  1,  1,  1,  1,  1,  1],
     [ 1,  1,  1,  1,  1,  1,  1,  1,  1,  1,  1,  1,  1,  1,  1, -1],
     [-1, -1, -1, -1, -1, -1, -1, -1, -1, -1, -1, -1, -1, -1, -1, -1],
     [-1, -1, -1, -1, -1, -1, -1, -1, -1, -1, -1, -1, -1, -1, -1, -1],
     [-1, -1, -1, -1, -1, -1, -1, -1, -1, -1, -1, -1, -1, -1, -1, -1],
     [-1, -1, -1, -1, -1, -1, -1, -1, -1, -1, -1, -1, -1, -1, -1,  2],
     [ 2,  2,  2,  2,  2,  2,  2,  2,  2,  2,  2,  2,  2,  2,  2,  2],
     [ 2,  2,  2,  2,  2,  2,  2,  2,  2,  2,  2,  2,  2,  2,  2,  3],
     [ 3,  3,  3,  3,  3,  3,  3,  3,  3,  3,  3,  3,  3,  3,  3,  4],
     [ 4,  4,  4,  4,  4,  4,  4,  0,  0,  0,  0,  0,  0,  0,  0,  0]]

  /** `basics_utf8_get_stride`: the table entry for `byte`. */
  function Utf8Stride(byte: Byte): (r: int)
    ensures r in {-1, 0, 1, 2, 3, 4}
    ensures byte <= 0x7e ==> r == 1
  {
    Utf8StrideRanges(byte);
    Utf8StrideTable[byte / 16][byte % 16]
  }

  /** The value of the table's step function at `byte`. */
  function Utf8StrideSteps(byte: Byte): int
  {
    if byte <= 0x7e then 1
    else if byte <= 0xbe then -1
    else if byte <= 0xde then 2
    else if byte <= 0xee then 3
    else if byte <= 0xf6 then 4
    else 0
  }

  /** Rows 0 to 3 of the table follow the step function. */
  lemma Utf8StrideRows0(byte: Byte)
    requires 0 <= byte < 64
    ensures Utf8StrideTable[byte / 16][byte % 16] == Utf8StrideSteps(byte)
  {
    var row := byte / 16;
    if row == 0 { assert Utf8StrideTable[0] == [1, 1, 1, 1, 1, 1, 1, 1, 1, 1, 1, 1, 1, 1, 1, 1]; }
    else if row == 1 { assert Utf8StrideTable[1] == [1, 1, 1, 1, 1, 1, 1, 1, 1, 1, 1, 1, 1, 1, 1, 1]; }
    else if row == 2 { assert Utf8StrideTable[2] == [1, 1, 1, 1, 1, 1, 1, 1, 1, 1, 1, 1, 1, 1, 1, 1]; }
    else { assert row == 3 && Utf8StrideTable[3] == [1, 1, 1, 1, 1, 1, 1, 1, 1, 1, 1, 1, 1, 1, 1, 1]; }
  }

  /** Rows 4 to 7 of the table follow the step function. */
  lemma Utf8StrideRows4(byte: Byte)
    requires 64 <= byte < 128
    ensures Utf8StrideTable[byte / 16][byte % 16] == Utf8StrideSteps(byte)
  {
    var row := byte / 16;
    if row == 4 { assert Utf8StrideTable[4] == [1, 1, 1, 1, 1, 1, 1, 1, 1, 1, 1, 1, 1, 1, 1, 1]; }
    else if row == 5 { assert Utf8StrideTable[5] == [1, 1, 1, 1, 1, 1, 1, 1, 1, 1, 1, 1, 1, 1, 1, 1]; }
    else if row == 6 { assert Utf8StrideTable[6] == [1, 1, 1, 1, 1, 1, 1, 1, 1, 1, 1, 1, 1, 1, 1, 1]; }
    else { assert row == 7 && Utf8StrideTable[7] == [1, 1, 1, 1, 1, 1, 1, 1, 1, 1, 1, 1, 1, 1, 1, -1]; }
  }

  /** Rows 8 to 11 of the table follow the step function. */
  lemma Utf8StrideRows8(byte: Byte)
    requires 128 <= byte < 192
    ensures Utf8StrideTable[byte / 16][byte % 16] == Utf8StrideSteps(byte)
  {
    var row := byte / 16;
    if row == 8 { assert Utf8StrideTable[8] == [-1, -1, -1, -1, -1, -1, -1, -1, -1, -1, -1, -1, -1, -1, -1, -1]; }
    else if row == 9 { assert Utf8StrideTable[9] == [-1, -1, -1, -1, -1, -1, -1, -1, -1, -1, -1, -1, -1, -1, -1, -1]; }
    else if row == 10 { assert Utf8StrideTable[10] == [-1, -1, -1, -1, -1, -1, -1, -1, -1, -1, -1, -1, -1, -1, -1, -1]; }
    else { assert row == 11 && Utf8StrideTable[11] == [-1, -1, -1, -1, -1, -1, -1, -1, -1, -1, -1, -1, -1, -1, -1, 2]; }
  }

  /** Rows 12 to 15 of the table follow the step function. */
  lemma Utf8StrideRows12(byte: Byte)
    requires 192 <= byte < 256
    ensures Utf8StrideTable[byte / 16][byte % 16] == Utf8StrideSteps(byte)
  {
    var row := byte / 16;
    if row == 12 { assert Utf8StrideTable[12] == [2, 2, 2, 2, 2, 2, 2, 2, 2, 2, 2, 2, 2, 2, 2, 2]; }
    else if row == 13 { assert Utf8StrideTable[13] == [2, 2, 2, 2, 2, 2, 2, 2, 2, 2, 2, 2, 2, 2, 2, 3]; }
    else if row == 14 { assert Utf8StrideTable[14] == [3, 3, 3, 3, 3, 3, 3, 3, 3, 3, 3, 3, 3, 3, 3, 4]; }
    else { assert row == 15 && Utf8StrideTable[15] == [4, 4, 4, 4, 4, 4, 4, 0, 0, 0, 0, 0, 0, 0, 0, 0]; }
  }

  /** The table is a step function with these five boundaries. */
  lemma Utf8StrideRanges(byte: Byte)
    ensures Utf8StrideTable[byte / 16][byte % 16] ==
      if byte <= 0x7e then 1
      else if byte <= 0xbe then -1
      else if byte <= 0xde then 2
      else if byte <= 0xee then 3
      else if byte <= 0xf6 then 4
      else 0
  {
    if byte < 64 { Utf8StrideRows0(byte); }
    else if byte < 128 { Utf8StrideRows4(byte); }
    else if byte < 192 { Utf8StrideRows8(byte); }
    else { Utf8StrideRows12(byte); }
  }

  /**
   * The stride the comment above the table describes: 1 for 0b0xxxxxxx,
   * -1 for 0b10xxxxxx, 2 for 0b110xxxxx, 3 for 0b1110xxxx, 4 for 0b11110xxx
   * and 0 for 0b11111xxx (section 3 of RFC 3629).
   */
  function Utf8StrideIntended(byte: Byte): (r: int)
    ensures r in {-1, 0, 1, 2, 3, 4}
    ensures r == 1 <==> byte / 0x80 == 0
    ensures r == -1 <==> byte / 0x40 == 0x2
    ensures r == 2 <==> byte / 0x20 == 0x6
    ensures r == 3 <==> byte / 0x10 == 0xe
    ensures r == 4 <==> byte / 0x08 == 0x1e
    ensures r == 0 <==> byte / 0x08 == 0x1f
  {
    if byte < 0x80 then 1
    else if byte < 0xc0 then -1
    else if byte < 0xe0 then 2
    else if byte < 0xf0 then 3
    else if byte < 0xf8 then 4
    else 0
  }

  /** The table disagrees with its own comment exactly at the last byte of each class. */
  lemma Utf8StrideTableOffByOne(byte: Byte)
    ensures Utf8Stride(byte) != Utf8StrideIntended(byte) <==> byte in {0x7f, 0xbf, 0xdf, 0xef, 0xf7}
  {
    Utf8StrideRanges(byte);
  }

  // ---------------------------------------------------------------------------
  // Clipped writes
  // ---------------------------------------------------------------------------

  /**
   * The buffer `buf` after copying `data` to `position`, dropping every byte
   * that falls at or past the end of the buffer.
   */
  function ClipWrite(buf: seq<Byte>, position: nat, data: seq<Byte>): (r: seq<Byte>)
    ensures |r| == |buf|
  {
    seq(|buf|, i requires 0 <= i < |buf| =>
      if position <= i < position + |data| then data[i - position] else buf[i])
  }

  /** A clipped write changes exactly the in-bounds bytes of the target range. */
  lemma ClipWriteAt(buf: seq<Byte>, position: nat, data: seq<Byte>)
    ensures forall i :: 0 <= i < |buf| && position <= i < position + |data| ==>
              ClipWrite(buf, position, data)[i] == data[i - position]
    ensures forall i :: 0 <= i < |buf| && !(position <= i < position + |data|) ==>
              ClipWrite(buf, position, data)[i] == buf[i]
  {
  }

  /** Two consecutive clipped writes are one clipped write of the concatenation. */
  lemma ClipWriteAppend(buf: seq<Byte>, position: nat, x: seq<Byte>, y: seq<Byte>)
    ensures ClipWrite(ClipWrite(buf, position, x), position + |x|, y) == ClipWrite(buf, position, x + y)
  {
    var lhs := ClipWrite(ClipWrite(buf, position, x), position + |x|, y);
    var rhs := ClipWrite(buf, position, x + y);
    ClipWriteAt(buf, position, x);
    ClipWriteAt(ClipWrite(buf, position, x), position + |x|, y);
    ClipWriteAt(buf, position, x + y);
    forall i | 0 <= i < |buf| ensures lhs[i] == rhs[i] {
      if position <= i < position + |x| {
        assert (x + y)[i - position] == x[i - position];
      } else if position + |x| <= i < position + |x| + |y| {
        assert (x + y)[i - position] == y[i - position - |x|];
      }
    }
  }

  /** The index `basics_memory_write_guard` writes to. */
  function GuardIndex(size: nat, position: nat): (r: nat)
    requires size > 0
    ensures r < size
    ensures r == position || (position >= size && r == size - 1)
  {
    if position < size then position else size - 1
  }

  /** `basics_memory_write_byte`: writes only when `position < size`; returns 1. */
  method WriteByte(buf: array<Byte>, position: nat, byte: Byte) returns (c: nat)
    modifies buf
    ensures c == 1
    ensures buf[..] == ClipWrite(old(buf[..]), position, [byte])
  {
    if position < buf.Length {
      buf[position] := byte;
    }
    ClipWriteAt(old(buf[..]), position, [byte]);
    c := 1;
  }

  /** `basics_memory_write_guard`: writes at `position`, or at the last byte when past the end. */
  method WriteGuard(buf: array<Byte>, position: nat, byte: Byte) returns (c: nat)
    requires buf.Length > 0
    modifies buf
    ensures c == 1
    ensures buf[..] == old(buf[..])[GuardIndex(buf.Length, position) := byte]
  {
    buf[if position < buf.Length then position else buf.Length - 1] := byte;
    c := 1;
  }

  /**
   * `basics_memory_write_string`: copies `min(length, size - position)` bytes
   * of `data` and returns `length` whether or not anything was written.
   */
  method WriteString(buf: array<Byte>, position: nat, data: seq<Byte>) returns (c: nat)
    modifies buf
    ensures c == |data|
    ensures buf[..] == ClipWrite(old(buf[..]), position, data)
  {
    if position < buf.Length {
      var remain := buf.Length - position;
      var limit := if |data| < remain then |data| else remain;
      for k := 0 to limit
        invariant forall i :: 0 <= i < buf.Length && position <= i < position + k ==> buf[i] == data[i - position]
        invariant forall i :: 0 <= i < buf.Length && !(position <= i < position + k) ==> buf[i] == old(buf[i])
      {
        buf[position + k] := data[k];
      }
    }
    ClipWriteAt(old(buf[..]), position, data);
    c := |data|;
  }

  /** A C string literal: its bytes before the terminating NUL. */
  predicate IsCString(literal: seq<Byte>)
  {
    0 !in literal
  }

  /** `basics_memory_write_literal`: writes the literal and returns its `strlen`. */
  method WriteLiteral(buf: array<Byte>, position: nat, literal: seq<Byte>) returns (c: nat)
    requires IsCString(literal)
    modifies buf
    ensures c == |literal|
    ensures buf[..] == ClipWrite(old(buf[..]), position, literal)
  {
    c := WriteString(buf, position, literal);
  }

  // ---------------------------------------------------------------------------
  // Armoring
  // ---------------------------------------------------------------------------

  const Backslash: Byte := 0x5c
  const LetterX: Byte := 0x78

  const Hex: seq<Byte> := [0x30, 0x31, 0x32, 0x33, 0x34, 0x35, 0x36, 0x37,
                           0x38, 0x39, 0x61, 0x62, 0x63, 0x64, 0x65, 0x66]

  /** A byte that `armor_byte` lets through unchanged: printable, space excluded. */
  predicate Printable(b: Byte)
  {
    0x21 <= b <= 0x7e
  }

  /** The letter of the two-byte escape for a named control byte, if `b` has one. */
  function NamedEscape(b: Byte): (r: int)
    ensures r == -1 || 0x21 <= r <= 0x7e
  {
    if b == 0x07 then B('a')
    else if b == 0x08 then B('b')
    else if b == 0x09 then B('t')
    else if b == 0x0a then B('n')
    else if b == 0x0b then B('v')
    else if b == 0x0c then B('f')
    else if b == 0x0d then B('r')
    else if b == 0x1b then B('e')
    else -1
  }

  /** What `basics_memory_armor_byte` writes for `b`. */
  function ArmorText(b: Byte): seq<Byte>
  {
    if Printable(b) then [b]
    else if NamedEscape(b) != -1 then [Backslash, NamedEscape(b)]
    else [Backslash, LetterX, Hex[b / 16], Hex[b % 16]]
  }

  /**
   * Armoring one byte: the byte itself when printable (count 1), a backslash
   * and the C escape letter for the eight named control bytes (count 2),
   * otherwise `\x` and two digits of the lower-case `hex[]` table, high nibble
   * first, which read back as the byte (count 4).
   */
  lemma ArmorTextShape(b: Byte)
    ensures Printable(b) ==> ArmorText(b) == [b]
    ensures b == 0x07 ==> ArmorText(b) == [Backslash, B('a')]
    ensures b == 0x08 ==> ArmorText(b) == [Backslash, B('b')]
    ensures b == 0x09 ==> ArmorText(b) == [Backslash, B('t')]
    ensures b == 0x0a ==> ArmorText(b) == [Backslash, B('n')]
    ensures b == 0x0b ==> ArmorText(b) == [Backslash, B('v')]
    ensures b == 0x0c ==> ArmorText(b) == [Backslash, B('f')]
    ensures b == 0x0d ==> ArmorText(b) == [Backslash, B('r')]
    ensures b == 0x1b ==> ArmorText(b) == [Backslash, B('e')]
    ensures !Printable(b) && b !in {0x07, 0x08, 0x09, 0x0a, 0x0b, 0x0c, 0x0d, 0x1b} ==>
      ArmorText(b) == [Backslash, LetterX, Hex[b / 16], Hex[b % 16]] &&
      ArmorText(b)[2] in Hex && ArmorText(b)[3] in Hex &&
      HexValue(ArmorText(b)[2]) * 16 + HexValue(ArmorText(b)[3]) == b
  {
    if !Printable(b) && NamedEscape(b) == -1 {
      HexDigit(b / 16);
      HexDigit(b % 16);
    }
  }

  /** Each entry of `hex[]` is a printable digit whose value is its index. */
  lemma HexDigit(d: nat)
    requires d < 16
    ensures Printable(Hex[d]) && HexValue(Hex[d]) == d
  {
  }

  /** The value of a lower-case hex digit (and 0 for anything else). */
  function HexValue(d: Byte): nat
  {
    if 0x30 <= d <= 0x39 then d - 0x30 else if 0x61 <= d <= 0x66 then d - 0x61 + 10 else 0
  }

  /** Every armored byte is printable, so armored text never holds a NUL or a space. */
  lemma ArmorTextPrintable(b: Byte)
    ensures forall i :: 0 <= i < |ArmorText(b)| ==> Printable(ArmorText(b)[i])
  {
    if !Printable(b) && NamedEscape(b) == -1 {
      HexDigit(b / 16);
      HexDigit(b % 16);
    }
  }

  /** Distinct bytes armor to distinct texts. */
  lemma ArmorTextInjective(a: Byte, b: Byte)
    requires ArmorText(a) == ArmorText(b)
    ensures a == b
  {
    if !Printable(a) && NamedEscape(a) == -1 {
      HexDigit(a / 16);
      HexDigit(a % 16);
    }
    if !Printable(b) && NamedEscape(b) == -1 {
      HexDigit(b / 16);
      HexDigit(b % 16);
    }
  }

  /** The backslash is not escaped, so armored strings cannot always be read back. */
  lemma ArmorAllNotInjective()
    ensures ArmorAll([Backslash, B('n')]) == ArmorAll([0x0a])
  {
    assert ArmorAll([Backslash, B('n')]) == ArmorText(Backslash) + ArmorAll([B('n')]);
  }

  /** `basics_memory_armor_byte`: writes `ArmorText(byte)` clipped and returns its length. */
  method ArmorByte(buf: array<Byte>, position: nat, byte: Byte) returns (c: nat)
    modifies buf
    ensures c == |ArmorText(byte)|
    ensures buf[..] == ClipWrite(old(buf[..]), position, ArmorText(byte))
  {
    if 0x21 <= byte <= 0x7e {
      c := WriteByte(buf, position, byte);
      assert ArmorText(byte) == [byte];
      return;
    }
    var name := NamedEscape(byte);
    if name != -1 {
      // the eight `case` labels of the switch, each writing a two-byte literal
      c := WriteLiteral(buf, position, [Backslash, name]);
      assert ArmorText(byte) == [Backslash, name];
    } else {
      var hi := byte / 16;
      var lo := byte % 16;
      ghost var before := buf[..];
      ghost var text := [Backslash, LetterX, Hex[hi], Hex[lo]];
      assert ArmorText(byte) == text;
      c := 0;
      var k := WriteLiteral(buf, position + c, [Backslash, LetterX]);
      c := c + k;
      k := WriteByte(buf, position + c, Hex[hi]);
      ClipWriteAppend(before, position, [Backslash, LetterX], [Hex[hi]]);
      assert [Backslash, LetterX] + [Hex[hi]] == text[..3];
      c := c + k;
      k := WriteByte(buf, position + c, Hex[lo]);
      ClipWriteAppend(before, position, text[..3], [Hex[lo]]);
      assert text[..3] + [Hex[lo]] == text;
      c := c + k;
    }
  }

  /** The armored text of a whole string: the concatenation of each byte's. */
  function ArmorAll(s: seq<Byte>): seq<Byte>
  {
    if s == [] then [] else ArmorAll(s[..|s| - 1]) + ArmorText(s[|s| - 1])
  }

  lemma {:induction false} ArmorAllPrintable(s: seq<Byte>)
    ensures forall i :: 0 <= i < |ArmorAll(s)| ==> Printable(ArmorAll(s)[i])
  {
    if s != [] {
      ArmorAllPrintable(s[..|s| - 1]);
      ArmorTextPrintable(s[|s| - 1]);
      var a := ArmorAll(s[..|s| - 1]);
      var t := ArmorText(s[|s| - 1]);
      forall i | 0 <= i < |a + t| ensures Printable((a + t)[i]) {
        if i < |a| { assert (a + t)[i] == a[i]; } else { assert (a + t)[i] == t[i - |a|]; }
      }
    }
  }

  /** Armoring one more byte appends that byte's text. */
  lemma ArmorAllSnoc(s: seq<Byte>, i: nat)
    requires i < |s|
    ensures ArmorAll(s[..i + 1]) == ArmorAll(s[..i]) + ArmorText(s[i])
  {
    assert s[..i + 1][..i] == s[..i];
  }

  /**
   * `basics_memory_armor_string`: armors each byte after the previous one and
   * finally places a NUL with `write_guard`; returns the total count plus one.
   */
  method ArmorString(buf: array<Byte>, position: nat, s: seq<Byte>) returns (n: nat)
    requires buf.Length > 0
    modifies buf
    ensures n == |ArmorAll(s)| + 1
    ensures buf[..] == ClipWrite(old(buf[..]), position, ArmorAll(s))[GuardIndex(buf.Length, position + |ArmorAll(s)|) := 0]
  {
    ghost var b0 := buf[..];
    ghost var armored: seq<Byte> := [];
    var pos := position;
    for i := 0 to |s|
      invariant armored == ArmorAll(s[..i])
      invariant pos == position + |armored|
      invariant buf[..] == ClipWrite(b0, position, armored)
    {
      var c := ArmorByte(buf, pos, s[i]);
      ClipWriteAppend(b0, position, armored, ArmorText(s[i]));
      ArmorAllSnoc(s, i);
      armored := armored + ArmorText(s[i]);
      pos := pos + c;
    }
    assert s[..|s|] == s;
    var g := WriteGuard(buf, pos, 0);
    pos := pos + g;
    n := pos - position;
  }

  /**
   * Armoring from position 0 leaves a C string in the buffer: the armored text,
   * cut to fit, followed by a NUL at `min(end, size - 1)`.
   */
  lemma ArmorStringTerminated(old_buf: seq<Byte>, s: seq<Byte>)
    requires |old_buf| > 0
    ensures var a := ArmorAll(s);
            var buf := ClipWrite(old_buf, 0, a)[GuardIndex(|old_buf|, |a|) := 0];
            var k := Min(|a|, |old_buf| - 1);
            buf[k] == 0 && buf[..k] == a[..k] && 0 !in buf[..k]
  {
    var a := ArmorAll(s);
    var buf := ClipWrite(old_buf, 0, a)[GuardIndex(|old_buf|, |a|) := 0];
    var k := Min(|a|, |old_buf| - 1);
    ArmorAllPrintable(s);
    assert buf[..k] == a[..k];
    forall i | 0 <= i < k ensures buf[..k][i] != 0 {
      assert Printable(a[i]);
    }
  }

  // ---------------------------------------------------------------------------
  // Reads
  // ---------------------------------------------------------------------------

  /**
   * `basics_memory_read`: copies `unit * count` bytes from `position` into
   * `out` only when they all lie inside the buffer; always returns `unit * count`.
   */
  method Read(self: seq<Byte>, position: nat, out: array<Byte>, unit: nat, count: nat) returns (bytes: nat)
    requires unit != 0
    requires position + unit * count <= |self| ==> unit * count <= out.Length
    modifies out
    ensures bytes == unit * count
    ensures position + bytes <= |self| ==> out[..] == self[position..position + bytes] + old(out[bytes..])
    ensures position + bytes > |self| ==> out[..] == old(out[..])
  {
    bytes := unit * count;
    if |self| < position + bytes {
      return;
    }
    for k := 0 to bytes
      invariant forall i :: 0 <= i < k ==> out[i] == self[position + i]
      invariant forall i :: k <= i < out.Length ==> out[i] == old(out[i])
    {
      out[k] := self[position + k];
    }
    assert out[..] == self[position..position + bytes] + old(out[bytes..]);
  }

  /** A 16-bit word from two bytes, low byte first. */
  function Word16Le(lo: Byte, hi: Byte): (w: U16)
    ensures w % 256 == lo && w / 256 == hi
  {
    lo + 256 * hi
  }

  /**
   * `basics_memory_read_16le` on a little-endian host: when the `2 * count`
   * bytes lie inside the buffer, word `i` is `b[p+2i] | b[p+2i+1] << 8`;
   * otherwise `out` is untouched. Always returns `2 * count`.
   */
  method Read16Le(self: seq<Byte>, position: nat, out: array<U16>, count: nat) returns (bytes: nat)
    requires position + 2 * count <= |self| ==> count <= out.Length
    modifies out
    ensures bytes == 2 * count
    ensures position + bytes <= |self| ==>
      (forall i :: 0 <= i < count ==> out[i] == Word16Le(self[position + 2 * i], self[position + 2 * i + 1])) &&
      (forall i :: count <= i < out.Length ==> out[i] == old(out[i]))
    ensures position + bytes > |self| ==> out[..] == old(out[..])
  {
    bytes := 2 * count;
    if |self| < position + bytes {
      return;
    }
    for k := 0 to count
      invariant forall i :: 0 <= i < k ==> out[i] == Word16Le(self[position + 2 * i], self[position + 2 * i + 1])
      invariant forall i :: k <= i < out.Length ==> out[i] == old(out[i])
    {
      out[k] := Word16Le(self[position + 2 * k], self[position + 2 * k + 1]);
    }
  }

  /**
   * The byte swap of `basics_memory_read_16le` on a big-endian host, as
   * written: the high byte is shifted by 1 instead of 8.
   */
  function BigEndianSwapAsWritten(lo: Byte, hi: Byte): bv16
  {
    ((hi as bv16) << 1) | (lo as bv16)
  }

  /** The swap as written does not produce the little-endian word. */
  lemma BigEndianSwapAsWrittenIsWrong()
    ensures BigEndianSwapAsWritten(0x00, 0x01) == 0x0002
    ensures Word16Le(0x00, 0x01) == 0x0100
  {
  }

  // ---------------------------------------------------------------------------
  // Skipping strings, single bytes, prefixes
  // ---------------------------------------------------------------------------

  /**
   * How many bytes `basics_memory_skip_string` skips from `position`: up to and
   * including the first NUL, or 0 when there is none before the end.
   */
  function NulSkip(self: seq<Byte>, position: nat): (k: nat)
    decreases |self| - position
    ensures position >= |self| ==> k == 0
    ensures k > 0 ==> position + k <= |self|
  {
    if position >= |self| then 0
    else if self[position] == 0 then 1
    else
      var r := NulSkip(self, position + 1);
      if r == 0 then 0 else r + 1
  }

  /** What `NulSkip` counts: zero when no NUL follows, otherwise the bytes up to and including the first NUL. */
  lemma {:induction false} NulSkipMeaning(self: seq<Byte>, position: nat)
    decreases |self| - position
    ensures NulSkip(self, position) == 0 <==> position >= |self| || forall j :: position <= j < |self| ==> self[j] != 0
    ensures NulSkip(self, position) > 0 ==>
              self[position + NulSkip(self, position) - 1] == 0 &&
              forall j :: position <= j < position + NulSkip(self, position) - 1 ==> self[j] != 0
  {
    if position < |self| && self[position] != 0 {
      NulSkipMeaning(self, position + 1);
    }
  }

  /** `basics_memory_skip_string`. */
  method SkipString(self: seq<Byte>, position: nat) returns (k: nat)
    ensures k == NulSkip(self, position)
  {
    var index := position;
    if |self| <= position {
      return index - position;
    }
    while index < |self| && self[index] != 0
      invariant position <= index <= |self|
      invariant forall j :: position <= j < index ==> self[j] != 0
      invariant NulSkip(self, position) == if NulSkip(self, index) == 0 then 0 else index - position + NulSkip(self, index)
    {
      index := index + 1;
    }
    if index < |self| {
      index := index + 1;
    } else {
      index := position;
    }
    k := index - position;
  }

  /** `basics_memory_get_byte`: the byte in [0, 255] when in bounds, -1 past the end. */
  function GetByte(self: seq<Byte>, position: nat): (r: int)
    ensures -1 <= r <= 255
    ensures r == -1 <==> position >= |self|
    ensures r != -1 ==> r == self[position]
  {
    if position < |self| then self[position] else -1
  }

  /** `strncmp(a, b, n) == 0`: equal up to `n` bytes or up to a common NUL. */
  function StrnEq(a: seq<Byte>, b: seq<Byte>, n: nat): bool
    requires n <= |a| && n <= |b|
  {
    n == 0 || (a[0] == b[0] && (a[0] == 0 || StrnEq(a[1..], b[1..], n - 1)))
  }

  /**
   * `strncmp` reads a string no further than its first NUL: two strings that
   * agree up to and including a NUL inside the first `n` bytes compare alike
   * against any `a`.
   */
  lemma {:induction false} StrnEqStopsAtNul(a: seq<Byte>, b: seq<Byte>, c: seq<Byte>, n: nat, k: nat)
    requires n <= |a| && n <= |b| && n <= |c|
    requires k < n && b[k] == 0 && c[..k + 1] == b[..k + 1]
    ensures StrnEq(a, b, n) == StrnEq(a, c, n)
    decreases k
  {
    assert b[0] == b[..k + 1][0] && c[0] == c[..k + 1][0];
    if k > 0 {
      assert b[1..][..k] == b[..k + 1][1..];
      assert c[1..][..k] == c[..k + 1][1..];
      StrnEqStopsAtNul(a[1..], b[1..], c[1..], n - 1, k - 1);
    }
  }

  /** Without a NUL in the compared region `strncmp` is plain equality. */
  lemma {:induction false} StrnEqNoNul(a: seq<Byte>, b: seq<Byte>, n: nat)
    requires n <= |a| && n <= |b|
    requires 0 !in a[..n]
    ensures StrnEq(a, b, n) <==> a[..n] == b[..n]
  {
    if n > 0 {
      assert a[0] == a[..n][0];
      assert a[1..][..n - 1] == a[1..n];
      assert 0 !in a[1..][..n - 1];
      StrnEqNoNul(a[1..], b[1..], n - 1);
      assert a[..n] == [a[0]] + a[1..][..n - 1];
      assert b[..n] == [b[0]] + b[1..][..n - 1];
    }
  }

  /**
   * `basics_memory_has_prefix(self, size, position, prefix, length)`: false
   * whenever the region runs past the buffer; otherwise `strncmp` equality.
   * The sum `position + length` is unbounded here, as in the other bounds
   * checks of this module.
   *
   * `prefix` holds at least `length` bytes. A C string prefix shorter than
   * `length` is passed with its NUL and any bytes after it: `strncmp` stops
   * at that NUL, so what follows does not change the result
   * (`StrnEqStopsAtNul`).
   */
  function HasPrefix(self: seq<Byte>, position: nat, prefix: seq<Byte>, length: nat): (r: bool)
    requires length <= |prefix|
    ensures position + length > |self| ==> !r
    ensures position + length <= |self| && 0 !in self[position..position + length] ==>
              (r <==> self[position..position + length] == prefix[..length])
  {
    if position + length <= |self| then
      RegionStrnEq(self, position, prefix, length);
      StrnEq(self[position..], prefix, length)
    else false
  }

  lemma RegionStrnEq(self: seq<Byte>, position: nat, prefix: seq<Byte>, length: nat)
    requires length <= |prefix| && position + length <= |self|
    ensures 0 !in self[position..position + length] ==>
              (StrnEq(self[position..], prefix, length) <==> self[position..position + length] == prefix[..length])
  {
    var region := self[position..];
    if 0 !in self[position..position + length] {
      assert region[..length] == self[position..position + length];
      StrnEqNoNul(region, prefix, length);
    }
  }
}
