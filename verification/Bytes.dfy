/**
  Bytes, fixed-width little-endian words and positional numerals.

  Every byte is a mathematical integer in [0, 256).  Machine widths are explicit: a word is
  written with the number of bytes of its C type, which is where truncation happens.
 */
module Bytes {

  type Byte = x: int | 0 <= x < 0x100

  datatype Option<+T> = None | Some(value: T) {
    function GetOr(default: T): T {
      if Some? then value else default
    }
  }

  function Min(a: nat, b: nat): nat {
    if a < b then a else b
  }

  function Max(a: nat, b: nat): nat {
    if a < b then b else a
  }

  /** The concatenation of `parts`. */
  function Flatten(parts: seq<seq<Byte>>): seq<Byte> {
    if parts == [] then [] else Flatten(parts[..|parts| - 1]) + parts[|parts| - 1]
  }

  /** The number of values a word of `width` bytes can take. */
  function Range(width: nat): (r: nat)
    ensures r > 0
  {
    if width == 0 then 1 else 0x100 * Range(width - 1)
  }

  /** The low `width` bytes of `n`, least significant first. */
  function LittleEndian(n: nat, width: nat): (bytes: seq<Byte>)
    ensures |bytes| == width
  {
    if width == 0 then [] else [n % 0x100] + LittleEndian(n / 0x100, width - 1)
  }

  function FromLittleEndian(bytes: seq<Byte>): nat {
    if bytes == [] then 0 else bytes[0] + 0x100 * FromLittleEndian(bytes[1..])
  }

  lemma {:induction false} ModOfProduct(n: nat, m: nat)
    requires m > 0
    ensures n % 0x100 + 0x100 * ((n / 0x100) % m) == n % (0x100 * m)
    ensures (n / 0x100) / m == n / (0x100 * m)
  {
    var q, r := n / 0x100, n % 0x100;
    var a, b := q / m, q % m;
    var k := 0x100 * m;
    assert n == k * a + (0x100 * b + r) by {
      assert q == m * a + b;
      assert k * a == 0x100 * (m * a);
    }
    DivModUnique(k, a, 0x100 * b + r, n / k, n % k);
  }

  lemma ScaledGap(base: nat, q: int, r: int, q': int, r': int)
    requires 0 <= r < base && 0 <= r' && q < q'
    ensures base * q + r < base * q' + r'
  {
    var gap := q' - q - 1;
    assert base * gap >= 0;
    assert base * q' == base * q + base + base * gap;
  }

  /** Quotient and remainder are unique. */
  lemma DivModUnique(base: nat, q: int, r: int, q': int, r': int)
    requires 0 <= r < base && 0 <= r' < base
    requires base * q + r == base * q' + r'
    ensures q == q' && r == r'
  {
    if q < q' {
      ScaledGap(base, q, r, q', r');
    } else if q' < q {
      ScaledGap(base, q', r', q, r);
    }
  }

  /** Byte `k` of a word has the weight 256^k. */
  lemma {:induction false} LittleEndianByte(n: nat, width: nat, k: nat)
    requires k < width
    ensures LittleEndian(n, width)[k] == n / Range(k) % 0x100
  {
    if k > 0 {
      LittleEndianByte(n / 0x100, width - 1, k - 1);
      ModOfProduct(n, Range(k - 1));
    }
  }

  /** Reading back a word of `width` bytes yields the number modulo its width. */
  lemma {:induction false} LittleEndianRoundTrip(n: nat, width: nat)
    ensures FromLittleEndian(LittleEndian(n, width)) == n % Range(width)
  {
    if width > 0 {
      var rest := LittleEndian(n / 0x100, width - 1);
      assert LittleEndian(n, width)[1..] == rest;
      LittleEndianRoundTrip(n / 0x100, width - 1);
      ModOfProduct(n, Range(width - 1));
    }
  }

  lemma {:induction false} FromLittleEndianBound(bytes: seq<Byte>)
    ensures FromLittleEndian(bytes) < Range(|bytes|)
  {
    if bytes != [] {
      FromLittleEndianBound(bytes[1..]);
    }
  }

  lemma SmallWords()
    ensures Range(2) == 0x1_0000
    ensures Range(4) == 0x1_0000_0000
  {
    assert Range(1) == 0x100 * Range(0);
    assert Range(3) == 0x100 * Range(2);
  }

  lemma LongWords()
    ensures Range(8) == 0x1_0000_0000_0000_0000
  {
    SmallWords();
    assert Range(5) == 0x100_0000_0000;
    assert Range(6) == 0x1_0000_0000_0000;
    assert Range(7) == 0x100_0000_0000_0000;
  }

  /** The number whose digits, most significant first, are `digits`. */
  function BigEndian(digits: seq<nat>, base: nat): nat {
    if digits == [] then 0 else BigEndian(digits[..|digits| - 1], base) * base + digits[|digits| - 1]
  }

  function Power(base: nat, exp: nat): nat {
    if exp == 0 then 1 else base * Power(base, exp - 1)
  }

  /** The last `width` base-128 digits of `n`. */
  function ToBase128(n: nat, width: nat): (digits: seq<nat>)
    ensures |digits| == width && forall i :: 0 <= i < width ==> digits[i] < 0x80
  {
    if width == 0 then [] else ToBase128(n / 0x80, width - 1) + [n % 0x80]
  }

  lemma {:induction false} Base128RoundTrip(n: nat, width: nat)
    requires n < Power(0x80, width)
    ensures BigEndian(ToBase128(n, width), 0x80) == n
  {
    if width > 0 {
      Base128RoundTrip(n / 0x80, width - 1);
      var digits := ToBase128(n, width);
      assert digits[..width - 1] == ToBase128(n / 0x80, width - 1);
    }
  }

  lemma {:induction false} NumeralBound(digits: seq<nat>, base: nat)
    requires base > 0 && forall i :: 0 <= i < |digits| ==> digits[i] < base
    ensures BigEndian(digits, base) < Power(base, |digits|)
  {
    if digits != [] {
      var n := |digits| - 1;
      NumeralBound(digits[..n], base);
      var front := BigEndian(digits[..n], base);
      assert BigEndian(digits, base) == base * front + digits[n];
      assert Power(base, |digits|) == base * Power(base, n);
      hide BigEndian, Power;
      ScaledGap(base, front, digits[n], Power(base, n), 0);
    }
  }

  /** A numeral of known length determines its digits. */
  lemma {:induction false} NumeralsAreUnique(a: seq<nat>, b: seq<nat>, base: nat)
    requires |a| == |b|
    requires forall i :: 0 <= i < |a| ==> a[i] < base
    requires forall i :: 0 <= i < |b| ==> b[i] < base
    requires BigEndian(a, base) == BigEndian(b, base)
    ensures a == b
  {
    if a != [] {
      var n := |a| - 1;
      DivModUnique(base, BigEndian(a[..n], base), a[n], BigEndian(b[..n], base), b[n]);
      NumeralsAreUnique(a[..n], b[..n], base);
      assert a == a[..n] + [a[n]] && b == b[..n] + [b[n]];
    }
  }
}

/** The bitwise operators of C on non-negative integers, bit by bit. */
module Bits {
  import opened Bytes

  predicate Bit(n: nat, k: nat) {
    if k == 0 then n % 2 == 1 else Bit(n / 2, k - 1)
  }

  function BitAnd(a: nat, b: nat): nat {
    if a == 0 then 0 else 2 * BitAnd(a / 2, b / 2) + (if a % 2 == 1 && b % 2 == 1 then 1 else 0)
  }

  function BitOr(a: nat, b: nat): nat
    decreases a + b
  {
    if a == 0 && b == 0 then 0
    else 2 * BitOr(a / 2, b / 2) + (if a % 2 == 1 || b % 2 == 1 then 1 else 0)
  }

  function Pow2(k: nat): (r: nat)
    ensures r > 0
  {
    if k == 0 then 1 else 2 * Pow2(k - 1)
  }

  function ShiftLeft(n: nat, k: nat): nat {
    if k == 0 then n else 2 * ShiftLeft(n, k - 1)
  }

  function ShiftRight(n: nat, k: nat): nat {
    if k == 0 then n else ShiftRight(n, k - 1) / 2
  }

  lemma {:induction false} ZeroBits(k: nat)
    ensures !Bit(0, k)
  {
    if k > 0 {
      ZeroBits(k - 1);
    }
  }

  lemma {:induction false} BitOfAnd(a: nat, b: nat, k: nat)
    ensures Bit(BitAnd(a, b), k) <==> Bit(a, k) && Bit(b, k)
  {
    if a == 0 {
      ZeroBits(k);
    } else if k > 0 {
      assert BitAnd(a, b) / 2 == BitAnd(a / 2, b / 2);
      BitOfAnd(a / 2, b / 2, k - 1);
    }
  }

  lemma {:induction false} BitOfOr(a: nat, b: nat, k: nat)
    ensures Bit(BitOr(a, b), k) <==> Bit(a, k) || Bit(b, k)
    decreases k
  {
    if a == 0 && b == 0 {
      ZeroBits(k);
    } else if k > 0 {
      assert BitOr(a, b) / 2 == BitOr(a / 2, b / 2);
      BitOfOr(a / 2, b / 2, k - 1);
    }
  }

  lemma {:induction false} AndZero(a: nat)
    ensures BitAnd(a, 0) == 0
  {
    if a > 0 {
      AndZero(a / 2);
    }
  }

  lemma {:induction false} AndBound(a: nat, b: nat)
    ensures BitAnd(a, b) <= a && BitAnd(a, b) <= b
  {
    if a > 0 {
      AndBound(a / 2, b / 2);
    }
  }

  /** The usual C test of one flag. */
  lemma {:induction false} FlagTest(n: nat, k: nat)
    ensures BitAnd(n, Pow2(k)) != 0 <==> Bit(n, k)
  {
    if n == 0 {
      ZeroBits(k);
    } else if k == 0 {
      AndZero(n / 2);
    } else {
      FlagTest(n / 2, k - 1);
    }
  }

  /** The low `k` bits of `n`. */
  function LowBits(n: nat, k: nat): (r: nat)
    ensures r < Pow2(k)
  {
    if k == 0 then 0 else 2 * LowBits(n / 2, k - 1) + n % 2
  }

  lemma {:induction false} LowMask(n: nat, k: nat)
    ensures BitAnd(n, Pow2(k) - 1) == LowBits(n, k)
    decreases k
  {
    if k == 0 {
      AndZero(n);
    } else {
      var m := Pow2(k - 1);
      assert (2 * m - 1) / 2 == m - 1 && (2 * m - 1) % 2 == 1;
      LowMask(n / 2, k - 1);
    }
  }

  /** `(hi << k) | lo` is a sum when `lo` fits below the shift. */
  lemma {:induction false} OrOfDisjoint(hi: nat, k: nat, lo: nat)
    requires lo < Pow2(k)
    ensures BitOr(ShiftLeft(hi, k), lo) == ShiftLeft(hi, k) + lo
    decreases k
  {
    if k == 0 {
      OrZero(hi);
    } else {
      OrOfDisjoint(hi, k - 1, lo / 2);
    }
  }

  lemma {:induction false} OrZero(a: nat)
    ensures BitOr(a, 0) == a
  {
    if a > 0 {
      OrZero(a / 2);
    }
  }

  /** Setting a flag above all bits of `lo`. */
  lemma {:induction false} OrOfHigherFlag(lo: nat, k: nat)
    requires lo < Pow2(k)
    ensures BitOr(lo, Pow2(k)) == lo + Pow2(k)
  {
    if k == 0 {
      assert BitOr(0, 1) == 1;
    } else {
      OrOfHigherFlag(lo / 2, k - 1);
    }
  }

  lemma {:induction false} TopBit(lo: nat, k: nat)
    requires lo < Pow2(k)
    ensures Bit(lo + Pow2(k), k) && !Bit(lo, k)
  {
    if k > 0 {
      TopBit(lo / 2, k - 1);
      assert (lo + Pow2(k)) / 2 == lo / 2 + Pow2(k - 1);
    }
  }

  lemma {:induction false} LowBitsSplit(n: nat, k: nat) returns (q: nat)
    ensures n == ShiftLeft(q, k) + LowBits(n, k)
  {
    if k == 0 {
      q := n;
    } else {
      q := LowBitsSplit(n / 2, k - 1);
    }
  }

  lemma LeftShifts(n: nat)
    ensures ShiftLeft(n, 1) == 2 * n && ShiftLeft(n, 2) == 4 * n && ShiftLeft(n, 3) == 8 * n
    ensures ShiftLeft(n, 4) == 16 * n && ShiftLeft(n, 5) == 32 * n && ShiftLeft(n, 6) == 64 * n
    ensures ShiftLeft(n, 7) == 128 * n
  {
    assert ShiftLeft(n, 1) == 2 * ShiftLeft(n, 0);
    assert ShiftLeft(n, 2) == 2 * ShiftLeft(n, 1);
    assert ShiftLeft(n, 3) == 2 * ShiftLeft(n, 2);
    assert ShiftLeft(n, 4) == 2 * ShiftLeft(n, 3);
    assert ShiftLeft(n, 5) == 2 * ShiftLeft(n, 4);
    assert ShiftLeft(n, 6) == 2 * ShiftLeft(n, 5);
    assert ShiftLeft(n, 7) == 2 * ShiftLeft(n, 6);
  }

  lemma RightShifts(n: nat)
    ensures ShiftRight(n, 1) == n / 2 && ShiftRight(n, 2) == n / 4 && ShiftRight(n, 3) == n / 8
    ensures ShiftRight(n, 4) == n / 16 && ShiftRight(n, 5) == n / 32 && ShiftRight(n, 6) == n / 64
  {
    assert ShiftRight(n, 1) == ShiftRight(n, 0) / 2;
    assert ShiftRight(n, 2) == ShiftRight(n, 1) / 2 == n / 4;
    assert ShiftRight(n, 3) == ShiftRight(n, 2) / 2 == n / 8;
    assert ShiftRight(n, 4) == ShiftRight(n, 3) / 2 == n / 16;
    assert ShiftRight(n, 5) == ShiftRight(n, 4) / 2 == n / 32;
    assert ShiftRight(n, 6) == ShiftRight(n, 5) / 2 == n / 64;
  }

  lemma SevenBits(n: nat)
    ensures LowBits(n, 7) == n % 0x80
  {
    var q := LowBitsSplit(n, 7);
    LeftShifts(q);
    assert LowBits(n, 7) < Pow2(7) == 0x80;
    DivModUnique(0x80, q, LowBits(n, 7), n / 0x80, n % 0x80);
  }

  /** Clearing the parity bit of the low byte. */
  lemma MaskParity(n: nat)
    ensures BitAnd(n, 0xfe) == 2 * ((n / 2) % 0x80) < 0x100
    ensures BitAnd(n, 0xfe) % 2 == 0
  {
    assert Pow2(7) == 0x80;
    LowMask(n / 2, 7);
    SevenBits(n / 2);
    assert n > 0 ==> BitAnd(n, 0xfe) == 2 * BitAnd(n / 2, 0x7f);
  }

  /** Keeping the low byte. */
  lemma MaskByte(n: nat)
    ensures BitAnd(n, 0xff) == n % 0x100
  {
    assert Pow2(7) == 0x80;
    LowMask(n / 2, 7);
    SevenBits(n / 2);
    assert n > 0 ==> BitAnd(n, 0xff) == 2 * BitAnd(n / 2, 0x7f) + n % 2;
    TopBits(n);
  }

  lemma TopBits(n: nat)
    ensures 2 * ((n / 2) % 0x80) + n % 2 == n % 0x100
  {
    var h := n / 2;
    var q, r := h / 0x80, h % 0x80;
    assert h == 0x80 * q + r && n == 2 * h + n % 2;
    DivModUnique(0x100, q, 2 * r + n % 2, n / 0x100, n % 0x100);
  }
}
