/** Bytes, big-endian integers and the decimal text of integers. */
module Bytes {
  type byte = x: int | 0 <= x < 256

  type Bytes = seq<byte>

  const TWO63: nat := 0x8000_0000_0000_0000
  const TWO64: nat := 0x1_0000_0000_0000_0000

  /** 256 to the power `width`. */
  function Capacity(width: nat): (c: nat)
    ensures c >= 1
  {
    if width == 0 then 1 else 256 * Capacity(width - 1)
  }

  lemma Capacities()
    ensures Capacity(0) == 1 && Capacity(1) == 0x100 && Capacity(2) == 0x1_0000
    ensures Capacity(4) == 0x1_0000_0000 && Capacity(8) == TWO64
  {
    assert Capacity(3) == 0x100_0000;
    assert Capacity(5) == 0x100_0000_0000;
    assert Capacity(6) == 0x1_0000_0000_0000;
    assert Capacity(7) == 0x100_0000_0000_0000;
  }

  /** The low `width` bytes of `value`, most significant first. */
  function BigEndian(value: nat, width: nat): (bytes: Bytes)
    ensures |bytes| == width
  {
    if width == 0 then [] else BigEndian(value / 256, width - 1) + [value % 256]
  }

  function FromBigEndian(bytes: Bytes): nat {
    if bytes == [] then 0 else FromBigEndian(bytes[..|bytes| - 1]) * 256 + bytes[|bytes| - 1]
  }

  /** The last byte of a field is the least significant one. */
  lemma BigEndianStep(value: nat, width: nat)
    requires width > 0
    ensures FromBigEndian(BigEndian(value, width))
            == FromBigEndian(BigEndian(value / 256, width - 1)) * 256 + value % 256
  {
    var bytes := BigEndian(value, width);
    assert bytes[..|bytes| - 1] == BigEndian(value / 256, width - 1);
  }

  lemma HighAndLow(value: nat, c: nat) returns (high: nat, low: nat)
    requires value < 256 * c
    ensures high == value / 256 && low == value % 256 && high < c && high * 256 + low == value
  {
    high, low := value / 256, value % 256;
  }

  /** Reading back what was written gives the value, as far as it fits. */
  lemma {:induction false} BigEndianRoundTrip(value: nat, width: nat)
    requires value < Capacity(width)
    ensures FromBigEndian(BigEndian(value, width)) == value
  {
    if width > 0 {
      var high, low := HighAndLow(value, Capacity(width - 1));
      BigEndianStep(value, width);
      BigEndianRoundTrip(high, width - 1);
    }
  }

  /** Writing what was read gives the bytes back. */
  lemma {:induction false} BytesRoundTrip(bytes: Bytes)
    ensures BigEndian(FromBigEndian(bytes), |bytes|) == bytes
  {
    if bytes != [] {
      BytesRoundTrip(bytes[..|bytes| - 1]);
    }
  }

  /** The most significant byte is the first: byte `k` of a field counts the multiples of its place. */
  lemma {:induction false} BigEndianAt(value: nat, width: nat, k: nat)
    requires k < width
    ensures BigEndian(value, width)[k] == value / Capacity(width - 1 - k) % 256
  {
    if k < width - 1 {
      BigEndianAt(value / 256, width - 1, k);
      Quotients(value, Capacity(width - 2 - k));
    }
  }

  lemma Quotients(value: nat, c: nat)
    requires c >= 1
    ensures value / 256 / c == value / (256 * c)
  {
    var high, low := value / 256, value % 256;
    var k, m := high / c, high % c;
    var rest := 256 * m + low;
    assert high == c * k + m && m <= c - 1;
    assert value == 256 * (c * k + m) + low == (256 * c) * k + rest;
    assert 0 <= rest < 256 * c;
    Remainder(value, 256 * c, k, rest);
  }

  lemma {:induction false} FromBigEndianBound(bytes: Bytes)
    ensures FromBigEndian(bytes) < Capacity(|bytes|)
  {
    if bytes != [] {
      FromBigEndianBound(bytes[..|bytes| - 1]);
    }
  }

  /** Up to eight bytes hold an unsigned 64-bit number. */
  lemma Fits(bytes: Bytes)
    requires |bytes| <= 8
    ensures FromBigEndian(bytes) < TWO64
  {
    FromBigEndianBound(bytes);
    Capacities();
    assert Capacity(3) == 0x100_0000;
    assert Capacity(5) == 0x100_0000_0000;
    assert Capacity(6) == 0x1_0000_0000_0000;
    assert Capacity(7) == 0x100_0000_0000_0000;
  }

  /** A field of `width` bytes holds a value modulo its capacity. */
  lemma {:induction false} BigEndianWraps(value: nat, width: nat)
    ensures FromBigEndian(BigEndian(value, width)) == value % Capacity(width)
  {
    if width > 0 {
      BigEndianStep(value, width);
      BigEndianWraps(value / 256, width - 1);
      LowBytes(value, Capacity(width - 1));
    }
  }

  lemma LowBytes(value: nat, c: nat)
    requires c >= 1
    ensures value / 256 % c * 256 + value % 256 == value % (256 * c)
  {
    var high, low := value / 256, value % 256;
    var k, m := high / c, high % c;
    var rest := 256 * m + low;
    assert high == c * k + m && m <= c - 1;
    assert value == 256 * (c * k + m) + low == (256 * c) * k + rest;
    assert 0 <= rest < 256 * c;
    Remainder(value, 256 * c, k, rest);
  }

  lemma Remainder(value: nat, divisor: nat, quotient: nat, rest: nat)
    requires rest < divisor && value == divisor * quotient + rest
    ensures value % divisor == rest && value / divisor == quotient
  {
    SameQuotient(divisor, value / divisor, value % divisor, quotient, rest);
  }

  lemma SameQuotient(divisor: nat, q: int, r: int, quotient: int, rest: int)
    requires divisor * q + r == divisor * quotient + rest && 0 <= r < divisor && 0 <= rest < divisor
    ensures r == rest && q == quotient
  {
    var d := q - quotient;
    assert divisor * d == divisor * q - divisor * quotient;
    if d >= 1 {
      assert divisor * d == divisor * (d - 1) + divisor;
      Product(divisor, d - 1);
    } else if d <= -1 {
      assert divisor * d == -(divisor * (-d - 1)) - divisor;
      Product(divisor, -d - 1);
    }
  }

  lemma Product(a: int, b: int)
    requires a >= 0 && b >= 0
    ensures a * b >= 0
  {
  }

  /** `value` shifted right by `count` bytes. */
  function ShiftRight(value: nat, count: nat): nat {
    if count == 0 then value else ShiftRight(value / 256, count - 1)
  }

  lemma {:induction false} ShiftStep(value: nat, count: nat)
    ensures ShiftRight(value, count + 1) == ShiftRight(value, count) / 256
  {
    if count > 0 {
      ShiftStep(value / 256, count - 1);
    }
  }

  function Digits(n: nat): Bytes {
    (if n < 10 then [] else Digits(n / 10)) + [48 + n % 10]
  }

  /** What printf writes for an integer. */
  function Decimal(n: int): Bytes {
    if n < 0 then [45] + Digits(-n) else Digits(n)
  }

  /** The number that decimal digits stand for. */
  function Numeral(digits: Bytes): int {
    if digits == [] then 0 else 10 * Numeral(digits[..|digits| - 1]) + digits[|digits| - 1] - 48
  }

  /** The number that a decimal text stands for. */
  function Number(text: Bytes): int {
    if text != [] && text[0] == 45 then -Numeral(text[1..]) else Numeral(text)
  }

  /** The digits of a number stand for it, and have no leading zero. */
  lemma {:induction false} DigitsRead(n: nat)
    ensures Numeral(Digits(n)) == n && Digits(n) != [] && (|Digits(n)| > 1 ==> Digits(n)[0] != 48)
    ensures forall b | b in Digits(n) :: 48 <= b < 58
  {
    if n >= 10 {
      DigitsRead(n / 10);
    }
    assert Digits(n)[..|Digits(n)| - 1] == if n < 10 then [] else Digits(n / 10);
  }

  /** The text of an integer stands for it: its digits, behind a minus sign when it is negative. */
  lemma DecimalRead(n: int)
    ensures Number(Decimal(n)) == n
  {
    if n < 0 {
      DigitsRead(-n);
      assert Decimal(n)[1..] == Digits(-n);
    } else {
      DigitsRead(n);
      assert Digits(n)[0] in Digits(n);
    }
  }

  /** Different integers have different texts. */
  lemma DecimalDistinct(m: int, n: int)
    requires m != n
    ensures Decimal(m) != Decimal(n)
  {
    DecimalRead(m);
    DecimalRead(n);
  }
}
