/**
 * Byte strings and the fixed-width little-endian integers that the save-state
 * header is made of.  The source writes raw memory (`stream.write((char*)&x,
 * sizeof(x))`); on the little-endian hosts it runs on, that is the layout below.
 */
module Bytes {

  type Byte = b: int | 0 <= b < 0x100
  type Bytes = seq<Byte>

  type U16 = n: int | 0 <= n < 0x1_0000
  type U32 = n: int | 0 <= n < 0x1_0000_0000

  const Newline: Byte := 0x0A

  /** 256 to the power k: the number of values k bytes can hold. */
  function Pow256(k: nat): (r: nat)
    ensures r >= 1
  {
    if k == 0 then 1 else 0x100 * Pow256(k - 1)
  }

  lemma Pow256Widths()
    ensures Pow256(1) == 0x100
    ensures Pow256(2) == 0x1_0000
    ensures Pow256(4) == 0x1_0000_0000
  {
    assert Pow256(1) == 0x100 * Pow256(0);
    assert Pow256(2) == 0x100 * Pow256(1);
    assert Pow256(3) == 0x100 * Pow256(2);
    assert Pow256(4) == 0x100 * Pow256(3);
  }

  /** The `width` low-order bytes of n, least significant first. */
  function LittleEndian(n: nat, width: nat): (r: Bytes)
    ensures |r| == width
  {
    if width == 0 then [] else [n % 0x100] + LittleEndian(n / 0x100, width - 1)
  }

  /** The unsigned value of a little-endian byte string. */
  function FromLittleEndian(b: Bytes): (n: nat)
    ensures n < Pow256(|b|)
  {
    if b == [] then 0 else b[0] + 0x100 * FromLittleEndian(b[1..])
  }

  /** Writing n in `width` bytes and reading it back gives n whenever n fits. */
  lemma {:induction false} LittleEndianRoundTrip(n: nat, width: nat)
    requires n < Pow256(width)
    ensures FromLittleEndian(LittleEndian(n, width)) == n
  {
    if width > 0 {
      assert n / 0x100 < Pow256(width - 1);
      LittleEndianRoundTrip(n / 0x100, width - 1);
      assert LittleEndian(n, width)[1..] == LittleEndian(n / 0x100, width - 1);
    }
  }

  function U16Bytes(n: U16): (r: Bytes)
    ensures |r| == 2 && FromLittleEndian(r) == n
  {
    Pow256Widths();
    LittleEndianRoundTrip(n, 2);
    LittleEndian(n, 2)
  }

  function U32Bytes(n: U32): (r: Bytes)
    ensures |r| == 4 && FromLittleEndian(r) == n
  {
    Pow256Widths();
    LittleEndianRoundTrip(n, 4);
    LittleEndian(n, 4)
  }

  /** The value of four bytes read into a `uint32_t`. */
  function DecodeU32(b: Bytes): (n: U32)
    requires |b| == 4
  {
    Pow256Widths();
    FromLittleEndian(b)
  }

  lemma DecodeU32Bytes(n: U32)
    ensures DecodeU32(U32Bytes(n)) == n
  {
  }

  lemma DecodeU16Bytes(n: U16)
    ensures DecodeU16(U16Bytes(n)) == n
  {
  }

  /** The value of two bytes read into a `uint16_t`. */
  function DecodeU16(b: Bytes): (n: U16)
    requires |b| == 2
  {
    Pow256Widths();
    FromLittleEndian(b)
  }

  /**
   * The string a `char` buffer denotes when it is read as a C string: every
   * byte up to, and not including, the first NUL.
   */
  function CString(b: Bytes): (r: Bytes)
    ensures |r| <= |b| && r == b[..|r|]
    ensures 0 !in r
    ensures |r| < |b| ==> b[|r|] == 0
  {
    if b == [] || b[0] == 0 then [] else [b[0]] + CString(b[1..])
  }

  /** A buffer without NUL bytes reads back as itself. */
  lemma CStringOfNulFree(b: Bytes)
    requires 0 !in b
    ensures CString(b) == b
  {
  }

  /**
   * What `read(buffer, n)` extracts: the next n bytes, or all that is left
   * when fewer remain.
   */
  function Take(s: Bytes, n: nat): (r: Bytes)
    ensures |r| == if n <= |s| then n else |s|
    ensures r == s[..|r|]
  {
    if n <= |s| then s[..n] else s
  }

  /** n NUL bytes: a value-initialised `char` buffer. */
  function Zeros(n: nat): (r: Bytes)
    ensures |r| == n
    ensures forall i | 0 <= i < n :: r[i] == 0
  {
    seq(n, i => 0)
  }

  /**
   * One `std::getline`: the bytes before the first newline, and what follows
   * that newline; without a newline, everything and nothing.
   */
  function SplitLine(s: Bytes): (r: (Bytes, Bytes))
    ensures Newline !in r.0
    ensures s == r.0 + [Newline] + r.1 || (s == r.0 && r.1 == [])
  {
    if s == [] then ([], [])
    else if s[0] == Newline then ([], s[1..])
    else
      var (line, rest) := SplitLine(s[1..]);
      ([s[0]] + line, rest)
  }

  /** A line without a newline, written with its terminator, reads back first. */
  lemma {:induction false} SplitLineOfTerminated(line: Bytes, rest: Bytes)
    requires Newline !in line
    ensures SplitLine(line + [Newline] + rest) == (line, rest)
  {
    var s := line + [Newline] + rest;
    if line == [] {
      assert s[0] == Newline && s[1..] == rest;
    } else {
      assert s[0] == line[0] != Newline;
      assert s[1..] == line[1..] + [Newline] + rest;
      SplitLineOfTerminated(line[1..], rest);
      assert SplitLine(s) == ([s[0]] + line[1..], rest);
      assert [line[0]] + line[1..] == line;
    }
  }

  /** The decimal digits of n, as `std::to_string` writes them. */
  function Digits(n: nat): (r: Bytes)
    ensures |r| >= 1
    ensures forall i | 0 <= i < |r| :: '0' as int <= r[i] <= '9' as int
    ensures n > 0 ==> r[0] != '0' as int
  {
    if n < 10 then [('0' as int) + n] else Digits(n / 10) + [('0' as int) + n % 10]
  }

  /** The number a string of decimal digits denotes. */
  function DigitsValue(r: Bytes): nat
    requires forall i | 0 <= i < |r| :: '0' as int <= r[i] <= '9' as int
  {
    if r == [] then 0 else 10 * DigitsValue(r[..|r| - 1]) + (r[|r| - 1] - '0' as int)
  }

  lemma {:induction false} DigitsRoundTrip(n: nat)
    ensures DigitsValue(Digits(n)) == n
  {
    if n >= 10 {
      var r := Digits(n);
      assert r[..|r| - 1] == Digits(n / 10);
      DigitsRoundTrip(n / 10);
    }
  }

  /** `std::to_string` of a signed integer. */
  function IntToString(i: int): (r: Bytes)
  {
    if i < 0 then ['-' as int] + Digits(-i) else Digits(i)
  }

  lemma DigitsInjective(m: nat, n: nat)
    requires Digits(m) == Digits(n)
    ensures m == n
  {
    DigitsRoundTrip(m);
    DigitsRoundTrip(n);
  }

  /** The first character is a minus sign exactly for a negative number. */
  lemma MinusSign(i: int)
    ensures |IntToString(i)| >= 1 && (IntToString(i)[0] == '-' as int <==> i < 0)
  {
  }

  /** Distinct integers print differently. */
  lemma IntToStringInjective(i: int, j: int)
    requires IntToString(i) == IntToString(j)
    ensures i == j
  {
    MinusSign(i);
    MinusSign(j);
    if i < 0 {
      var a, b := IntToString(i), IntToString(j);
      assert a[1..] == Digits(-i) && b[1..] == Digits(-j);
      DigitsInjective(-i, -j);
    } else {
      DigitsInjective(i, j);
    }
  }
}
