/** The .NET integer facilities the handlers rely on: 32-bit `int` with
    unchecked wrap-around, `int.Parse` / `int.TryParse`, `int.ToString()`, and
    the truncation toward zero of a `(int)` cast. */
module Numbers {
  import opened Strings

  const Int32Min: int := -0x8000_0000
  const Int32Max: int := 0x7FFF_FFFF
  const TwoTo32: int := 0x1_0000_0000
  const Int64Max: int := 0x7FFF_FFFF_FFFF_FFFF
  const Int64Min: int := -0x8000_0000_0000_0000

  predicate InInt32(x: int)
  {
    Int32Min <= x <= Int32Max
  }

  /** Unchecked 32-bit arithmetic: the Int32 value congruent to `x` modulo 2^32. */
  function Wrap32(x: int): (r: int)
    ensures InInt32(r)
    ensures (x - r) % TwoTo32 == 0
    ensures InInt32(x) ==> r == x
    decreases if x > Int32Max then x else if x < Int32Min then -x else 0
  {
    if x > Int32Max then Wrap32(x - TwoTo32)
    else if x < Int32Min then Wrap32(x + TwoTo32)
    else x
  }

  /** Values congruent modulo 2^32 wrap to the same Int32. */
  lemma Wrap32Congruent(x: int, y: int)
    requires (x - y) % TwoTo32 == 0
    ensures Wrap32(x) == Wrap32(y)
  {
    var rx, ry := Wrap32(x), Wrap32(y);
    var a, b, c := (x - rx) / TwoTo32, (y - ry) / TwoTo32, (x - y) / TwoTo32;
    assert x - rx == a * TwoTo32 && y - ry == b * TwoTo32 && x - y == c * TwoTo32;
    assert rx - ry == (c - a + b) * TwoTo32;
  }

  /** Unchecked `a + b` after an unchecked step producing `a` is one unchecked
      step over the exact sum. */
  lemma Wrap32AddWrapped(a: int, b: int)
    ensures Wrap32(Wrap32(a) + b) == Wrap32(a + b)
  {
    var k := (a - Wrap32(a)) / TwoTo32;
    assert a - Wrap32(a) == k * TwoTo32;
    assert (Wrap32(a) + b) - (a + b) == (-k) * TwoTo32;
    MultipleMod(-k);
    Wrap32Congruent(Wrap32(a) + b, a + b);
  }

  lemma MultipleMod(k: int)
    ensures (k * TwoTo32) % TwoTo32 == 0
  {
  }

  /** The `(int)` conversion of a `double` that holds the integer `x`, as the
      x86 and x64 .NET Framework runtimes perform it in unchecked code: the
      value itself when it fits, and otherwise `int.MinValue` (the processor's
      "integer indefinite" answer), never a wrap-around. */
  function DoubleToInt32(x: int): (r: int)
    ensures InInt32(r)
    ensures InInt32(x) ==> r == x
    ensures !InInt32(x) ==> r == Int32Min
  {
    if InInt32(x) then x else Int32Min
  }

  /** Out of range, the conversion and the wrap-around disagree as soon as
      the wrapped value is not `int.MinValue`. */
  lemma DoubleCastIsNotWrap()
    ensures DoubleToInt32(Int32Max + 1) == Int32Min && Wrap32(Int32Max + 1) == Int32Min
    ensures DoubleToInt32(Int32Max + 2) == Int32Min && Wrap32(Int32Max + 2) == Int32Min + 1
  {
    assert Wrap32(Int32Max + 2) == Wrap32(Int32Max + 2 - TwoTo32);
  }

  /** `(int)` applied to the exact quotient `a / b`: truncation toward zero,
      unlike Dafny's Euclidean `/`. */
  function TruncDiv(a: int, b: int): (q: int)
    requires b > 0
    ensures a >= 0 ==> q >= 0 && q * b <= a < q * b + b
    ensures a < 0 ==> q <= 0 && q * b - b < a <= q * b
  {
    if a >= 0 then
      DivBounds(a, b);
      a / b
    else
      DivBounds(-a, b);
      NegateProduct(-a / b, b);
      -(-a / b)
  }

  /** Euclidean division of a natural number by a positive one. */
  lemma DivBounds(n: int, b: int)
    requires n >= 0 && b > 0
    ensures n / b >= 0 && (n / b) * b <= n < (n / b) * b + b
  {
    var q, r := n / b, n % b;
    assert n == q * b + r && 0 <= r < b;
  }

  lemma NegateProduct(m: int, b: int)
    ensures (-m) * b == -(m * b)
  {
  }

  predicate IsDigit(c: char)
  {
    '0' <= c <= '9'
  }

  predicate AllDigits(s: string)
  {
    forall i :: 0 <= i < |s| ==> IsDigit(s[i])
  }

  function DigitValue(c: char): nat
    requires IsDigit(c)
  {
    c as int - '0' as int
  }

  function DigitChar(d: nat): (c: char)
    requires d < 10
    ensures IsDigit(c) && DigitValue(c) == d
  {
    ('0' as int + d) as char
  }

  /** The value of a decimal digit string, most significant digit first. */
  function DigitsValue(s: string): nat
    requires AllDigits(s)
  {
    if s == [] then 0 else DigitsValue(s[..|s| - 1]) * 10 + DigitValue(s[|s| - 1])
  }

  /** `n.ToString()` for a non-negative `n`: the shortest decimal form. */
  function NatToString(n: nat): (s: string)
    ensures |s| >= 1 && AllDigits(s)
    ensures s[0] == '0' ==> n == 0 && s == "0"
  {
    if n < 10 then [DigitChar(n)] else NatToString(n / 10) + [DigitChar(n % 10)]
  }

  lemma {:induction false} NatToStringValue(n: nat)
    ensures DigitsValue(NatToString(n)) == n
  {
    if n >= 10 {
      var s := NatToString(n);
      assert s[..|s| - 1] == NatToString(n / 10);
      NatToStringValue(n / 10);
    }
  }

  /** The white space that `NumberStyles.Integer` allows around a number. */
  predicate IsNumberWhite(c: char)
  {
    ('\t' <= c <= '\r') || c == ' '
  }

  /** The white space `int.TryParse` skips is white space to `char.IsWhiteSpace`
      too, but not the other way round: a no-break space is not skipped. */
  lemma NumberWhiteIsWhite(c: char)
    ensures IsNumberWhite(c) ==> IsWhiteSpace(c)
    ensures IsWhiteSpace('\U{00A0}') && !IsNumberWhite('\U{00A0}')
  {
  }
  /** `int.TryParse(s, out v)` under `NumberStyles.Integer` with an invariant
      culture: optional leading white space, an optional sign, one or more
      ASCII digits, optional trailing white space (and trailing NUL
      characters, which .NET also accepts), and a value inside the Int32
      range. None stands for `false` from TryParse and for the exception
      `int.Parse` throws. The number is read left to right, as .NET does. */
  function ParseInt32(s: string): (r: Option<int>)
    ensures r.Some? ==> InInt32(r.value)
  {
    SkipLeading(s, 0)
  }

  /** Leading white space, then the sign. */
  function SkipLeading(s: string, i: nat): (r: Option<int>)
    requires i <= |s|
    ensures r.Some? ==> InInt32(r.value)
    decreases |s| - i
  {
    if i == |s| then None
    else if IsNumberWhite(s[i]) then SkipLeading(s, i + 1)
    else if s[i] == '-' then ScanDigits(s, i + 1, i + 1, true, 0)
    else if s[i] == '+' then ScanDigits(s, i + 1, i + 1, false, 0)
    else ScanDigits(s, i, i, false, 0)
  }

  /** The digits from `start`; `acc` is the value of those before `i`. */
  function ScanDigits(s: string, start: nat, i: nat, negative: bool, acc: nat): (r: Option<int>)
    requires start <= i <= |s|
    ensures r.Some? ==> InInt32(r.value)
    decreases |s| - i
  {
    if i < |s| && IsDigit(s[i]) then ScanDigits(s, start, i + 1, negative, acc * 10 + DigitValue(s[i]))
    else if i == start then None
    else SkipTrailing(s, i, if negative then -(acc as int) else acc)
  }

  /** What may follow the digits: white space, then only NUL characters. */
  function SkipTrailing(s: string, i: nat, v: int): (r: Option<int>)
    requires i <= |s|
    ensures r.Some? ==> InInt32(r.value)
    decreases |s| - i
  {
    if i == |s| || AllNul(s[i..]) then (if InInt32(v) then Some(v) else None)
    else if IsNumberWhite(s[i]) then SkipTrailing(s, i + 1, v)
    else None
  }

  predicate AllNul(s: string)
  {
    forall i :: 0 <= i < |s| ==> s[i] == '\0'
  }

  /** Scanning the rest of an all-digit string adds its digits to `acc`. */
  lemma {:induction false} ScanRest(s: string, i: nat)
    requires AllDigits(s) && 0 < |s| && i <= |s|
    ensures AllDigits(s[..i])
    ensures ScanDigits(s, 0, i, false, DigitsValue(s[..i])) == SkipTrailing(s, |s|, DigitsValue(s))
    decreases |s| - i
  {
    assert AllDigits(s[..i]) by {
      forall j | 0 <= j < i ensures IsDigit(s[..i][j]) { assert s[..i][j] == s[j]; }
    }
    if i < |s| {
      ScanRest(s, i + 1);
      assert s[..i + 1][..i] == s[..i];
      assert DigitsValue(s[..i + 1]) == DigitsValue(s[..i]) * 10 + DigitValue(s[i]);
    } else {
      assert s[..i] == s;
    }
  }

  /** A plain decimal digit string parses to its value when it fits. */
  lemma ParseDigits(s: string)
    requires s != [] && AllDigits(s)
    requires DigitsValue(s) <= Int32Max
    ensures ParseInt32(s) == Some(DigitsValue(s))
  {
    assert IsDigit(s[0]);
    ScanRest(s, 0);
    assert s[..0] == [];
  }

  /** Parsing undoes `ToString()` of every non-negative Int32. */
  lemma ParseOfToString(n: nat)
    requires n <= Int32Max
    ensures ParseInt32(NatToString(n)) == Some(n)
  {
    NatToStringValue(n);
    ParseDigits(NatToString(n));
  }

  /** Text holding no ASCII digit never parses. */
  lemma ParseNeedsDigit(s: string)
    requires forall i :: 0 <= i < |s| ==> !IsDigit(s[i])
    ensures ParseInt32(s).None?
  {
    NoDigitSkipped(s, 0);
  }

  lemma {:induction false} NoDigitSkipped(s: string, i: nat)
    requires i <= |s| && forall j :: 0 <= j < |s| ==> !IsDigit(s[j])
    ensures SkipLeading(s, i).None?
    decreases |s| - i
  {
    if i < |s| && IsNumberWhite(s[i]) {
      NoDigitSkipped(s, i + 1);
    }
  }
}
