/** The pieces of the Java platform the library's code leans on: the 32-bit
 *  `int`, exceptions, `String.hashCode` and the decimal rendering of `%d`. */
module JavaLang {

  /** A Java `int`: a 32-bit two's-complement integer. */
  type Int32 = x: int | -0x8000_0000 <= x < 0x8000_0000

  const MinInt: int := -0x8000_0000
  const MaxInt: int := 0x7fff_ffff

  /** Java `int` arithmetic: the mathematical result, moved into the `int`
   *  range by whole multiples of 2^32. */
  function Wrap(x: int): (r: Int32)
    ensures MinInt <= x <= MaxInt ==> r == x
    decreases if x > MaxInt then x - MaxInt else if x < MinInt then MinInt - x else 0
  {
    if x > MaxInt then Wrap(x - 0x1_0000_0000)
    else if x < MinInt then Wrap(x + 0x1_0000_0000)
    else x
  }

  /** The wrapped value is the two's-complement reading of the low 32 bits:
   *  it differs from `x` by a multiple of 2^32. */
  lemma {:induction false} WrapTwosComplement(x: int)
    ensures Wrap(x) == (x + 0x8000_0000) % 0x1_0000_0000 - 0x8000_0000
    ensures (x - Wrap(x)) % 0x1_0000_0000 == 0
    decreases if x > MaxInt then x - MaxInt else if x < MinInt then MinInt - x else 0
  {
    if x > MaxInt {
      WrapTwosComplement(x - 0x1_0000_0000);
      ModShift(x + 0x8000_0000 - 0x1_0000_0000);
      ModShift(x - Wrap(x) - 0x1_0000_0000);
    } else if x < MinInt {
      WrapTwosComplement(x + 0x1_0000_0000);
      ModShift(x + 0x8000_0000);
      ModShift(x - Wrap(x));
    }
  }

  /** `x + 1` (`++`) on a Java `int`: past the largest value it goes round
   *  to the smallest. */
  function Inc(x: Int32): (r: Int32)
    ensures x < MaxInt ==> r == x + 1
    ensures x == MaxInt ==> r == MinInt
  {
    if x == MaxInt then MinInt else x + 1
  }

  /** `x - 1` (`--`) on a Java `int`: below the smallest value it goes round
   *  to the largest. */
  function Dec(x: Int32): (r: Int32)
    ensures x > MinInt ==> r == x - 1
    ensures x == MinInt ==> r == MaxInt
  {
    if x == MinInt then MaxInt else x - 1
  }

  /** `++` and `--` are the general wrap-around at one step, and undo each
   *  other. */
  lemma IncDecWrap(x: Int32)
    ensures Inc(x) == Wrap(x + 1) && Dec(x) == Wrap(x - 1)
    ensures Dec(Inc(x)) == x && Inc(Dec(x)) == x
  {
    if x == MaxInt {
      assert Wrap(x + 1) == Wrap(x + 1 - 0x1_0000_0000);
    }
    if x == MinInt {
      assert Wrap(x - 1) == Wrap(x - 1 + 0x1_0000_0000);
    }
  }

  /** Adding 2^32 does not change a remainder modulo 2^32. */
  lemma ModShift(a: int)
    ensures (a + 0x1_0000_0000) % 0x1_0000_0000 == a % 0x1_0000_0000
  {
  }

  /** A Java reference that may be `null`, for values that are not objects. */
  datatype Option<T> = None | Some(value: T)

  /** A Java exception as the model observes it. */
  datatype Exc =
    | Exception(message: string)     // `new Exception(message)`
    | NullDereference                    // a method called on a `null` list
    | IndexOutOfBounds(index: int)   // `List.set` at an index outside the list

  /** How a `void` method ends: normally, or by throwing. */
  datatype Status = Done | Thrown(exc: Exc)

  /** How a value-returning method ends. */
  datatype Result<T> = Ok(value: T) | Err(exc: Exc)

  /** `String.hashCode`: s[0]*31^(n-1) + ... + s[n-1] in `int` arithmetic.
   *  Each character counts as one code unit, which is exact for the Basic
   *  Multilingual Plane. */
  function StringHash(s: string): Int32
  {
    if s == [] then 0 else Wrap(31 * StringHash(s[..|s| - 1]) + s[|s| - 1] as int)
  }

  predicate IsDigitChar(c: char)
  {
    '0' <= c <= '9'
  }

  /** The decimal digits of `n`, most significant first, without leading zeros. */
  function NatText(n: nat): (r: string)
    ensures |r| > 0 && forall i :: 0 <= i < |r| ==> IsDigitChar(r[i])
    ensures n > 0 ==> r[0] != '0'
    decreases n
  {
    (if n < 10 then "" else NatText(n / 10)) + [('0' as int + n % 10) as char]
  }

  /** `%d` / `Integer.toString`: a minus sign for negative numbers, then the digits. */
  function IntText(n: int): string
  {
    if n < 0 then "-" + NatText(-n) else NatText(n)
  }

  /** The number a string of decimal digits denotes. */
  function DigitsValue(s: string): nat
    requires forall i :: 0 <= i < |s| ==> IsDigitChar(s[i])
  {
    if s == [] then 0
    else
      assert IsDigitChar(s[|s| - 1]);
      10 * DigitsValue(s[..|s| - 1]) + (s[|s| - 1] as int - '0' as int)
  }

  /** The number a `%d` rendering denotes. */
  function IntValue(s: string): int
    requires |s| > 0
    requires s[0] == '-' ==> forall i :: 1 <= i < |s| ==> IsDigitChar(s[i])
    requires s[0] != '-' ==> forall i :: 0 <= i < |s| ==> IsDigitChar(s[i])
  {
    if s[0] == '-' then 0 - DigitsValue(s[1..]) as int else DigitsValue(s)
  }

  /** Reading the digits back gives the number that was printed. */
  lemma {:induction false} NatTextRoundTrip(n: nat)
    ensures DigitsValue(NatText(n)) == n
    decreases n
  {
    var r := NatText(n);
    var front := if n < 10 then "" else NatText(n / 10);
    assert r == front + [('0' as int + n % 10) as char];
    assert r[..|r| - 1] == front;
    if n >= 10 {
      NatTextRoundTrip(n / 10);
    }
  }

  /** `%d` loses nothing: the rendering of `n` denotes `n`. */
  lemma IntTextRoundTrip(n: int)
    ensures |IntText(n)| > 0
    ensures IntText(n)[0] == '-' <==> n < 0
    ensures IntValue(IntText(n)) == n
  {
    if n < 0 {
      NatTextRoundTrip(-n);
      assert IntText(n)[1..] == NatText(-n);
    } else {
      NatTextRoundTrip(n);
    }
  }
}
