/**
 * File contents as bytes and the bounds-checked fixed-size read
 * `FileContents::read_at`, plus the little-endian integer decodes and the
 * NUL-terminated name fields that the archive parsers read through it.
 *
 * A `read_at` into a value of type T is modelled by the destination's byte
 * image: `sizeof(T) == |dst|`, and a successful read replaces that image with
 * the file bytes at the offset. Integers inside a record are then read from
 * the image little-endian, as on the little-endian targets the code runs on.
 */
module Bytes {
  import opened Bits

  type Byte = b: int | 0 <= b < 256

  /** 2^32: one more than the largest `uint32_t`. */
  const U32Limit: nat := 0x1_0000_0000

  datatype Option<T> = None | Some(value: T)

  /** Unsigned 32-bit arithmetic: reduce modulo 2^32. */
  function WrapU32(x: int): (r: nat)
    ensures r < U32Limit
    ensures 0 <= x < U32Limit ==> r == x
  {
    x % U32Limit
  }

  function Pow256(n: nat): (r: nat)
    ensures r >= 1
  {
    if n == 0 then 1 else 256 * Pow256(n - 1)
  }

  // ---------------------------------------------------------------------
  // Little-endian integers
  // ---------------------------------------------------------------------

  /** The unsigned value of a little-endian byte string. */
  function LittleEndian(b: seq<Byte>): (v: nat)
    ensures v < Pow256(|b|)
  {
    if b == [] then 0 else b[0] + 256 * LittleEndian(b[1..])
  }

  /** The n-byte little-endian image of v (the low n bytes when v is too wide). */
  function ToLittleEndian(v: nat, n: nat): (b: seq<Byte>)
    ensures |b| == n
  {
    if n == 0 then [] else [v % 256] + ToLittleEndian(v / 256, n - 1)
  }

  /** Encoding a value that fits and decoding it gives the value back. */
  lemma {:induction false} DecodeEncode(v: nat, n: nat)
    requires v < Pow256(n)
    ensures LittleEndian(ToLittleEndian(v, n)) == v
  {
    if n > 0 {
      DecodeEncode(v / 256, n - 1);
      assert ToLittleEndian(v, n)[1..] == ToLittleEndian(v / 256, n - 1);
    }
  }

  /** Decoding bytes and re-encoding at the same width gives the bytes back. */
  lemma {:induction false} EncodeDecode(b: seq<Byte>)
    ensures ToLittleEndian(LittleEndian(b), |b|) == b
  {
    if b != [] {
      var rest := LittleEndian(b[1..]);
      ModUnique(b[0] + 256 * rest, 256, rest, b[0]);
      EncodeDecode(b[1..]);
      assert b == [b[0]] + b[1..];
    }
  }

  /** Two little-endian fields laid side by side read as one wider field. */
  lemma {:induction false} LittleEndianConcat(a: seq<Byte>, b: seq<Byte>)
    ensures LittleEndian(a + b) == LittleEndian(a) + Pow256(|a|) * LittleEndian(b)
  {
    if a == [] {
      assert a + b == b;
    } else {
      var p, x, y := Pow256(|a| - 1), LittleEndian(a[1..]), LittleEndian(b);
      assert LittleEndian(a + b) == a[0] + 256 * (x + p * y) by {
        assert (a + b)[0] == a[0] && (a + b)[1..] == a[1..] + b;
        LittleEndianConcat(a[1..], b);
      }
      ScaleSum(x, p, y, Pow256(|a|));
    }
  }

  lemma ScaleSum(x: int, p: int, y: int, q: int)
    requires q == 256 * p
    ensures 256 * (x + p * y) == 256 * x + q * y
  {
  }

  lemma Pow256Widths()
    ensures Pow256(2) == 0x1_0000 && Pow256(4) == U32Limit
  {
  }

  /** `uint16_t` at byte offset `at` of a record image. */
  function U16(b: seq<Byte>, at: nat): (v: nat)
    requires at + 2 <= |b|
    ensures v < 0x1_0000
  {
    LittleEndian(b[at..at + 2])
  }

  /** `uint32_t` at byte offset `at` of a record image. */
  function U32(b: seq<Byte>, at: nat): (v: nat)
    requires at + 4 <= |b|
    ensures v < U32Limit
  {
    Pow256Widths();
    LittleEndian(b[at..at + 4])
  }

  /** A `uint32_t` read from a slice is the one at the same place in the whole. */
  lemma U32OfSlice(s: seq<Byte>, lo: nat, hi: nat, at: nat)
    requires lo <= hi <= |s| && at + 4 <= hi - lo
    ensures U32(s[lo..hi], at) == U32(s, lo + at)
  {
    var whole := s[lo..hi];
    var field, direct := whole[at..at + 4], s[lo + at..lo + at + 4];
    forall j | 0 <= j < 4
      ensures field[j] == direct[j]
    {
      assert field[j] == whole[at + j] == s[lo + at + j];
    }
    assert field == direct;
  }

  /** `int16_t` at byte offset `at`: the 16-bit pattern read as two's complement. */
  function I16(b: seq<Byte>, at: nat): (v: int)
    requires at + 2 <= |b|
    ensures -0x8000 <= v < 0x8000
    ensures ToLittleEndian(v % 0x1_0000, 2) == b[at..at + 2]
  {
    var u := U16(b, at);
    EncodeDecode(b[at..at + 2]);
    if u < 0x8000 then u else u - 0x1_0000
  }

  /** The little-endian reads of io_test.cpp on the bytes 01 02 ... 08. */
  lemma ReadExamples(b: seq<Byte>)
    requires b == [1, 2, 3, 4, 5, 6, 7, 8]
    ensures U16(b, 0) == 0x0201 && U16(b, 2) == 0x0403 && U16(b, 6) == 0x0807
    ensures U32(b, 0) == 0x0403_0201 && U32(b, 4) == 0x0807_0605
    ensures LittleEndian(b) == 0x0807_0605_0403_0201
  {
    NarrowReads(b);
    WideRead(b);
  }

  lemma NarrowReads(b: seq<Byte>)
    requires b == [1, 2, 3, 4, 5, 6, 7, 8]
    ensures U16(b, 0) == 0x0201 && U16(b, 2) == 0x0403 && U16(b, 6) == 0x0807
    ensures U32(b, 0) == 0x0403_0201 && U32(b, 4) == 0x0807_0605
  {
    assert U16(b, 0) == 0x0201 by { assert b[0..2] == [1, 2]; TwoBytes(1, 2); }
    assert U16(b, 2) == 0x0403 by { assert b[2..4] == [3, 4]; TwoBytes(3, 4); }
    assert U16(b, 6) == 0x0807 by { assert b[6..8] == [7, 8]; TwoBytes(7, 8); }
    assert U32(b, 0) == 0x0403_0201 by { assert b[0..4] == [1, 2, 3, 4]; FourBytes(1, 2, 3, 4); }
    assert U32(b, 4) == 0x0807_0605 by { assert b[4..8] == [5, 6, 7, 8]; FourBytes(5, 6, 7, 8); }
  }

  lemma WideRead(b: seq<Byte>)
    requires b == [1, 2, 3, 4, 5, 6, 7, 8]
    ensures LittleEndian(b) == 0x0807_0605_0403_0201
  {
    assert b == [1, 2, 3, 4] + [5, 6, 7, 8];
    FourBytes(1, 2, 3, 4);
    FourBytes(5, 6, 7, 8);
    LittleEndianConcat([1, 2, 3, 4], [5, 6, 7, 8]);
    Pow256Widths();
  }

  lemma TwoBytes(x: Byte, y: Byte)
    ensures LittleEndian([x, y]) == x + 256 * y
  {
    assert [x, y][1..] == [y] && [y][1..] == [];
  }

  lemma FourBytes(w: Byte, x: Byte, y: Byte, z: Byte)
    ensures LittleEndian([w, x, y, z]) == w + 256 * x + 0x1_0000 * y + 0x100_0000 * z
  {
    assert [w, x, y, z] == [w, x] + [y, z];
    LittleEndianConcat([w, x], [y, z]);
    TwoBytes(w, x);
    TwoBytes(y, z);
    Pow256Widths();
  }

  // ---------------------------------------------------------------------
  // read_at
  // ---------------------------------------------------------------------

  /**
   * `read_at(offset, dst)`: true with dst overwritten by the `|dst|` bytes at
   * `offset` when they lie inside the contents; false with dst untouched
   * otherwise. The bound is checked on exact integers (see the finding on
   * the `size_t` sum in README).
   */
  function ReadAt(contents: seq<Byte>, offset: nat, dst: seq<Byte>): (r: (bool, seq<Byte>))
    ensures |r.1| == |dst|
    ensures r.0 <==> offset + |dst| <= |contents|
    ensures r.0 ==> r.1 == contents[offset..offset + |dst|]
    ensures !r.0 ==> r.1 == dst
  {
    if offset + |dst| > |contents| then (false, dst)
    else (true, contents[offset..offset + |dst|])
  }

  /** Nothing can be read from empty contents, not even a single byte. */
  lemma EmptyReadsFail(offset: nat, dst: seq<Byte>)
    requires |dst| >= 1
    ensures !ReadAt([], offset, dst).0
  {
  }

  /**
   * Reading a record is reading its fields one after the other: the image of
   * a record of two parts is the image of the first part followed by the
   * image of the second, read right after it.
   */
  lemma ReadAtFields(contents: seq<Byte>, offset: nat, a: seq<Byte>, b: seq<Byte>)
    requires ReadAt(contents, offset, a + b).0
    ensures ReadAt(contents, offset, a).0 && ReadAt(contents, offset + |a|, b).0
    ensures ReadAt(contents, offset, a + b).1
      == ReadAt(contents, offset, a).1 + ReadAt(contents, offset + |a|, b).1
  {
    var whole := contents[offset..offset + |a| + |b|];
    assert whole == contents[offset..offset + |a|] + contents[offset + |a|..offset + |a| + |b|];
  }

  /** Outcome of the `read_at` bound check as compiled, with its `size_t` sum. */
  datatype ReadOutcome = Refused | Copied(bytes: seq<Byte>) | OutOfBounds

  /**
   * `read_at` with `offset + sizeof(T)` computed in `size_t`: when the sum
   * wraps past 2^64 the check passes and `memcpy` reads past the end of the
   * contents, reported here as `OutOfBounds`.
   */
  function ReadAtAsWritten(contents: seq<Byte>, offset: nat, dst: seq<Byte>): (r: ReadOutcome)
    requires offset < SizeLimit && |dst| < SizeLimit
    ensures r.OutOfBounds? <==> WrapSize(offset + |dst|) <= |contents| < offset + |dst|
    ensures r.Copied? ==> ReadAt(contents, offset, dst) == (true, r.bytes)
    ensures r.Refused? ==> !ReadAt(contents, offset, dst).0
  {
    if WrapSize(offset + |dst|) > |contents| then Refused
    else if offset + |dst| <= |contents| then Copied(contents[offset..offset + |dst|])
    else OutOfBounds
  }

  /** Without wrap-around the compiled check is the exact one. */
  lemma ReadAtAsWrittenAgrees(contents: seq<Byte>, offset: nat, dst: seq<Byte>)
    requires offset + |dst| < SizeLimit
    ensures ReadAtAsWritten(contents, offset, dst) != OutOfBounds
  {
  }

  /** The offset 2^64 - 1, one below the wrap, passes the check for a `uint16_t` in a 3-byte file. */
  lemma ReadAtWrapExample(contents: seq<Byte>, dst: seq<Byte>)
    requires |contents| == 3 && |dst| == 2
    ensures ReadAtAsWritten(contents, SizeLimit - 1, dst) == OutOfBounds
  {
    assert WrapSize(SizeLimit - 1 + 2) == 1 by {
      ModUnique(SizeLimit + 1, SizeLimit, 1, 1);
    }
  }

  // ---------------------------------------------------------------------
  // Fixed-size name fields
  // ---------------------------------------------------------------------

  /**
   * `std::string(field, strnlen(field, |field|))`: the bytes of a fixed-size
   * name field before its first NUL, or the whole field when it has none.
   */
  function CString(field: seq<Byte>): (s: seq<Byte>)
    ensures |s| <= |field| && s == field[..|s|]
    ensures forall i :: 0 <= i < |s| ==> s[i] != 0
    ensures |s| < |field| ==> field[|s|] == 0
  {
    if field == [] || field[0] == 0 then []
    else [field[0]] + CString(field[1..])
  }

  /** The name is determined by where the first NUL is. */
  lemma CStringUnique(field: seq<Byte>, n: nat)
    requires n <= |field| && (forall i :: 0 <= i < n ==> field[i] != 0)
    requires n < |field| ==> field[n] == 0
    ensures CString(field) == field[..n]
  {
    var s := CString(field);
    if |s| != n {
      assert false;
    }
  }

  /** Characters of a byte string, one per byte. */
  function ToChars(b: seq<Byte>): (s: string)
    ensures |s| == |b| && forall i :: 0 <= i < |b| ==> s[i] as int == b[i]
  {
    seq(|b|, i requires 0 <= i < |b| => b[i] as char)
  }
}
