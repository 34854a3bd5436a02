/** The parts of the Java runtime the push-notification core relies on:
    references that may be null, the exceptions that escape its methods,
    32-bit `int` arithmetic, and the hash codes and string forms of
    `String` and `Long`. */
module JavaLang {

  /** A Java reference that may be null. */
  datatype Nullable<+T> = Null | Val(v: T)

  /** The exceptions the modelled methods let escape to their callers. */
  datatype Exception =
    | NullPointerException
    | IllegalArgumentException
    | JsonProcessingException

  /** How a `void` Java method ends: normally, or by throwing. */
  datatype Outcome = Completed | Threw(error: Exception)

  /** How a value-returning Java method ends. */
  datatype Result<+T> = Returned(value: T) | Raised(error: Exception)

  const TwoTo31: int := 0x8000_0000
  const TwoTo32: int := 0x1_0000_0000
  const TwoTo64: int := 0x1_0000_0000_0000_0000

  /** Java `int` and `long`. */
  type Int32 = x: int | -0x8000_0000 <= x < 0x8000_0000
  type Int64 = x: int | -0x8000_0000_0000_0000 <= x < 0x8000_0000_0000_0000

  /** Java's `int` arithmetic: the mathematical value modulo 2^32, read as
      a two's-complement number. */
  function Wrap32(x: int): (r: Int32)
    ensures -TwoTo31 <= x < TwoTo31 ==> r == x
  {
    (x + TwoTo31) % TwoTo32 - TwoTo31
  }

  /** Adding a multiple of 2^32 does not change a Euclidean remainder. */
  lemma {:induction false} ModShift(y: int, k: int)
    ensures (y + k * TwoTo32) % TwoTo32 == y % TwoTo32
    decreases if k < 0 then -k else k
  {
    if k > 0 {
      ModShift(y, k - 1);
      assert y + k * TwoTo32 == (y + (k - 1) * TwoTo32) + TwoTo32;
    } else if k < 0 {
      ModShift(y, k + 1);
      assert y + k * TwoTo32 == (y + (k + 1) * TwoTo32) - TwoTo32;
    }
  }

  /** Two values that differ by a multiple of 2^32 wrap to the same `int`. */
  lemma WrapShift(x: int, k: int)
    ensures Wrap32(x + k * TwoTo32) == Wrap32(x)
  {
    ModShift(x + TwoTo31, k);
    assert x + k * TwoTo32 + TwoTo31 == (x + TwoTo31) + k * TwoTo32;
  }

  /** Wrapping after every step of `c * acc + b` gives the same `int` as
      wrapping once at the end: Java's step-by-step overflow is harmless to
      a polynomial hash. */
  lemma WrapMulAdd(c: int, a: int, b: int)
    ensures Wrap32(c * Wrap32(a) + b) == Wrap32(c * a + b)
  {
    var q := (a + TwoTo31) / TwoTo32;
    assert Wrap32(a) == a - q * TwoTo32;
    calc {
      c * Wrap32(a) + b;
      c * (a - q * TwoTo32) + b;
      { assert c * (a - q * TwoTo32) == c * a - (c * q) * TwoTo32; }
      (c * a + b) + (-(c * q)) * TwoTo32;
    }
    WrapShift(c * a + b, -(c * q));
  }

  /** The UTF-16 code units Java stores for a string: a character outside
      the Basic Multilingual Plane becomes a surrogate pair. */
  function Utf16(s: string): (units: seq<int>)
    ensures |units| >= |s|
  {
    if s == [] then [] else CharUnits(s[0]) + Utf16(s[1..])
  }

  /** The code units of one character. */
  function CharUnits(ch: char): (units: seq<int>)
    ensures 1 <= |units| <= 2
    ensures forall i :: 0 <= i < |units| ==> 0 <= units[i] < 0x1_0000
  {
    var c := ch as int;
    if c < 0x1_0000 then [c]
    else [0xD800 + (c - 0x1_0000) / 0x400, 0xDC00 + (c - 0x1_0000) % 0x400]
  }

  /** The encoding of a string's parts concatenates: each character is
      encoded on its own. */
  lemma {:induction false} Utf16Append(s: string, t: string)
    ensures Utf16(s + t) == Utf16(s) + Utf16(t)
  {
    if s == [] {
      assert s + t == t;
    } else {
      var c, rest := s[0], s[1..];
      assert s == [c] + rest;
      assert s + t == [c] + (rest + t);
      Utf16Cons(c, rest);
      Utf16Cons(c, rest + t);
      Utf16Append(rest, t);
    }
  }

  lemma Utf16Cons(c: char, s: string)
    ensures Utf16([c] + s) == CharUnits(c) + Utf16(s)
  {
    assert ([c] + s)[0] == c && ([c] + s)[1..] == s;
  }

  /** Every code unit is a 16-bit value. */
  lemma {:induction false} Utf16InRange(s: string)
    ensures forall i :: 0 <= i < |Utf16(s)| ==> 0 <= Utf16(s)[i] < 0x1_0000
  {
    if s != [] {
      Utf16InRange(s[1..]);
      var head, tail := CharUnits(s[0]), Utf16(s[1..]);
      assert Utf16(s) == head + tail;
      forall i | 0 <= i < |head + tail| ensures 0 <= (head + tail)[i] < 0x1_0000 {
        if i >= |head| {
          assert (head + tail)[i] == tail[i - |head|];
        }
      }
    }
  }

  /** One character: a BMP character is its own code unit; any other is a
      high surrogate followed by a low surrogate that decode back to it. */
  lemma Utf16OfChar(c: char)
    ensures c as int < 0x1_0000 ==> Utf16([c]) == [c as int]
    ensures c as int >= 0x1_0000 ==>
      var units := Utf16([c]);
      && |units| == 2
      && 0xD800 <= units[0] < 0xDC00
      && 0xDC00 <= units[1] < 0xE000
      && 0x1_0000 + (units[0] - 0xD800) * 0x400 + (units[1] - 0xDC00) == c as int
  {
    assert [c][1..] == [];
  }

  /** `String.hashCode`: `h = 31 * h + unit` over the code units, in `int`. */
  function HashUnits(units: seq<int>): (h: Int32)
    ensures units == [] ==> h == 0
    ensures |units| == 1 && 0 <= units[0] < TwoTo31 ==> h == units[0]
  {
    if units == [] then 0
    else Wrap32(31 * HashUnits(units[..|units| - 1]) + units[|units| - 1])
  }

  function StringHashCode(s: string): (h: Int32)
    ensures s == [] ==> h == 0
  {
    HashUnits(Utf16(s))
  }

  /** One more unit is one more step `h = 31 * h + unit`. */
  lemma HashUnitsSnoc(units: seq<int>, u: int)
    ensures HashUnits(units + [u]) == Wrap32(31 * HashUnits(units) + u)
  {
    assert (units + [u])[..|units|] == units;
  }

  /** Appending a BMP character to a string is one step of Java's
      `h = 31 * h + c`. */
  lemma StringHashCodeSnoc(s: string, c: char)
    requires (c as int) < 0x1_0000
    ensures StringHashCode(s + [c]) == Wrap32(31 * StringHashCode(s) + c as int)
  {
    Utf16Append(s, [c]);
    Utf16OfChar(c);
    HashUnitsSnoc(Utf16(s), c as int);
  }

  /** Appending a character outside the BMP to a string is two steps of
      `h = 31 * h + unit`: one for its high surrogate, then one for its low
      surrogate. */
  lemma StringHashCodeSnocSupplementary(s: string, c: char)
    requires (c as int) >= 0x1_0000
    ensures var high := 0xD800 + (c as int - 0x1_0000) / 0x400;
      var low := 0xDC00 + (c as int - 0x1_0000) % 0x400;
      StringHashCode(s + [c]) == Wrap32(31 * Wrap32(31 * StringHashCode(s) + high) + low)
  {
    var high := 0xD800 + (c as int - 0x1_0000) / 0x400;
    var low := 0xDC00 + (c as int - 0x1_0000) % 0x400;
    var units := Utf16(s);
    assert CharUnits(c) == [high, low];
    Utf16Cons(c, []);
    assert [c] + [] == [c];
    Utf16Append(s, [c]);
    assert Utf16(s + [c]) == (units + [high]) + [low];
    HashUnitsSnoc(units + [high], low);
    HashUnitsSnoc(units, high);
  }

  /** `Long.hashCode`: `(int)(value ^ (value >>> 32))`, computed on the
      64-bit two's-complement pattern of the value. */
  function LongHashCode(value: Int64): (h: Int32)
    ensures value == 0 ==> h == 0
  {
    var bits := value % TwoTo64;
    var high := bits / TwoTo32;
    var low := bits % TwoTo32;
    Wrap32(((low as bv32) ^ (high as bv32)) as int)
  }

  /** `Long.toString`: optional minus sign, then decimal digits. */
  function LongToString(value: Int64): (s: string)
    ensures s != []
    ensures value >= 0 ==> forall i :: 0 <= i < |s| ==> '0' <= s[i] <= '9'
    ensures value < 0 ==> s[0] == '-'
  {
    if value < 0 then "-" + Digits(-(value as int)) else Digits(value)
  }

  /** The decimal digits of `n`, most significant first, with no leading
      zero. */
  function Digits(n: nat): (s: string)
    ensures s != []
    ensures forall i :: 0 <= i < |s| ==> '0' <= s[i] <= '9'
    ensures n > 0 ==> s[0] != '0'
  {
    var last := [(('0' as int) + n % 10) as char];
    if n < 10 then last else Digits(n / 10) + last
  }

  /** A one-digit value prints as that digit. */
  lemma LongToStringOfDigit(value: Int64)
    requires 0 <= value < 10
    ensures LongToString(value) == [('0' as int + value as int) as char]
  {
  }

  /** The number a string of decimal digits denotes. */
  function DecimalValue(s: string): int
  {
    if s == [] then 0
    else 10 * DecimalValue(s[..|s| - 1]) + (s[|s| - 1] as int - '0' as int)
  }

  /** The digits spell the number. */
  lemma {:induction false} DigitsValue(n: nat)
    ensures DecimalValue(Digits(n)) == n
  {
    if n >= 10 {
      DigitsValue(n / 10);
      var d := Digits(n);
      assert d[..|d| - 1] == Digits(n / 10);
    }
  }

  /** `Long.toString` spells the value: a non-negative value as its digits,
      a negative one as `-` followed by the digits of its magnitude. */
  lemma LongToStringValue(value: Int64)
    ensures var s := LongToString(value);
      && (value >= 0 ==> DecimalValue(s) == value)
      && (value < 0 ==> s[0] == '-' && s[1..] == Digits(-(value as int)) && DecimalValue(s[1..]) == -(value as int))
      && (value != 0 ==> s[0] != '0')
      && (value < 0 ==> |s| >= 2 && s[1] != '0')
  {
    if value < 0 {
      DigitsValue(-(value as int));
      assert LongToString(value)[1..] == Digits(-(value as int));
    } else {
      DigitsValue(value as int);
    }
  }

  /** What string concatenation writes for a possibly-null reference. */
  function Show<T>(r: Nullable<T>, show: T -> string): string
  {
    match r
    case Null => "null"
    case Val(x) => show(x)
  }
}
