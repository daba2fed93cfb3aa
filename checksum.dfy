/**
 * The validator: `check_id_valid`, the 9-digit identification-number checksum.
 *
 * The source works on `str(id_number)`: it refuses any string that is not nine
 * numeric characters, doubles the digits at even 1-based positions, replaces every
 * value of 10 or more by the sum of its two digits, and accepts when the total is
 * divisible by 10. The model keeps that pipeline (decimal string, doubled list,
 * reduced list, sum) and proves it equal to an independent digit-level definition.
 */
module IdChecksum {

  /** The only exception the core raises. */
  datatype Error = ValueError

  datatype Result<T> = Ok(value: T) | Err(error: Error)

  /** The smallest and largest integers whose decimal string has nine characters. */
  const MinId: int := 100000000
  const MaxId: int := 999999999

  predicate InRange(n: int) {
    MinId <= n <= MaxId
  }

  function Pow10(k: nat): (r: nat)
    ensures r >= 1
  {
    if k == 0 then 1 else 10 * Pow10(k - 1)
  }

  // ---------------------------------------------------------------------------
  // str(n) for an int n

  function DigitChar(d: nat): (c: char)
    requires d < 10
    ensures '0' <= c <= '9'
  {
    ('0' as int + d) as char
  }

  /** The value of a decimal digit character, `int(digit)`. */
  function CharDigit(c: char): (d: nat)
    requires '0' <= c <= '9'
    ensures d < 10
  {
    c as int - '0' as int
  }

  /** Decimal representation of a non-negative integer, without leading zeros. */
  function NatToString(n: nat): (s: string)
    ensures |s| >= 1
    decreases n
  {
    if n < 10 then [DigitChar(n)] else NatToString(n / 10) + [DigitChar(n % 10)]
  }

  /** `str(n)`: a minus sign in front of the digits of a negative integer. */
  function IntToString(n: int): string {
    if n < 0 then "-" + NatToString(-n) else NatToString(n)
  }

  /** `s.isnumeric()` on the characters `str` of an integer can produce. */
  predicate IsNumeric(s: string) {
    |s| > 0 && forall i :: 0 <= i < |s| ==> '0' <= s[i] <= '9'
  }

  // ---------------------------------------------------------------------------
  // check_id_valid, step by step as the source computes it

  /** The list of digit values, doubled at even 1-based positions. */
  function Multiplied(s: string): (ms: seq<nat>)
    requires IsNumeric(s)
    ensures |ms| == |s|
  {
    seq(|s|, i requires 0 <= i < |s| =>
      if (i + 1) % 2 == 0 then CharDigit(s[i]) * 2 else CharDigit(s[i]))
  }

  /** Every value of 10 or more replaced by the sum of its two decimal digits. */
  function Reduced(ms: seq<nat>): (rs: seq<nat>)
    ensures |rs| == |ms|
  {
    seq(|ms|, i requires 0 <= i < |ms| =>
      if ms[i] < 10 then ms[i] else ms[i] / 10 + ms[i] % 10)
  }

  /** Python's `sum`: a left-to-right accumulation. */
  function Sum(xs: seq<nat>): nat {
    if xs == [] then 0 else Sum(xs[..|xs| - 1]) + xs[|xs| - 1]
  }

  /**
   * `check_id_valid(n)` for an integer `n`: `Err(ValueError)` exactly when
   * `str(n)` is not nine numeric characters, that is outside 100000000..999999999.
   */
  function CheckIdValid(n: int): (r: Result<bool>)
    ensures r.Err? <==> !InRange(n)
  {
    IntToStringNine(n);
    var s := IntToString(n);
    if |s| != 9 || !IsNumeric(s) then Err(ValueError)
    else Ok(Sum(Reduced(Multiplied(s))) % 10 == 0)
  }

  /** `check_id_valid(n)` returns `True`. */
  predicate IsValid(n: int) {
    CheckIdValid(n).Ok? && CheckIdValid(n).value
  }

  // ---------------------------------------------------------------------------
  // The reference definition: decimal digits and the weighted total

  /** The `width` lowest decimal digits of `n`, most significant first. */
  function Digits(n: nat, width: nat): (ds: seq<nat>)
    ensures |ds| == width
    ensures forall i :: 0 <= i < width ==> ds[i] < 10
  {
    if width == 0 then [] else Digits(n / 10, width - 1) + [n % 10]
  }

  /**
   * The contribution of digit `d` at 1-based position `pos`: the digit itself at an
   * odd position; at an even one, its double, less 9 when the double reaches 10.
   */
  function Term(pos: nat, d: nat): (t: nat)
    requires d < 10
    ensures t <= 9
    ensures pos % 2 == 1 ==> t == d
  {
    if pos % 2 == 1 then d
    else if 2 * d < 10 then 2 * d
    else 2 * d - 9
  }

  /** The weighted total of a digit sequence, positions counted from 1 on the left. */
  function Total(ds: seq<nat>): nat
    requires forall i :: 0 <= i < |ds| ==> ds[i] < 10
  {
    if ds == [] then 0
    else Total(ds[..|ds| - 1]) + Term(|ds|, ds[|ds| - 1])
  }

  // ---------------------------------------------------------------------------
  // Lemmas about the decimal string

  /** `str(n)` has at most `k` characters exactly when `n < 10^k`. */
  lemma {:induction false} NatToStringLength(n: nat, k: nat)
    requires k >= 1
    ensures |NatToString(n)| <= k <==> n < Pow10(k)
    decreases k
  {
    if n >= 10 {
      if k == 1 {
        assert |NatToString(n)| == |NatToString(n / 10)| + 1;
      } else {
        NatToStringLength(n / 10, k - 1);
        assert |NatToString(n)| == |NatToString(n / 10)| + 1;
      }
    } else if k > 1 {
      assert Pow10(k) == 10 * Pow10(k - 1);
    }
  }

  /** `str(n)` has nine characters for every `n` in range, and never for one above it. */
  lemma IntToStringNine(n: int)
    ensures InRange(n) ==> |IntToString(n)| == 9 && IsNumeric(IntToString(n))
    ensures n >= 0 && |IntToString(n)| == 9 ==> InRange(n)
    ensures |IntToString(n)| == 9 ==> n <= MaxId
    ensures n < 0 ==> !IsNumeric(IntToString(n))
  {
    if n >= 0 {
      assert Pow10(8) == 100000000 && Pow10(9) == 1000000000;
      NatToStringLength(n, 8);
      NatToStringLength(n, 9);
      NatDigitsAreNumeric(n);
    } else {
      assert IntToString(n)[0] == '-';
    }
  }

  lemma {:induction false} NatDigitsAreNumeric(n: nat)
    ensures IsNumeric(NatToString(n))
    decreases n
  {
    if n >= 10 {
      NatDigitsAreNumeric(n / 10);
    }
  }

  /** Reading the characters of `str(n)` back gives the decimal digits of `n`. */
  lemma {:induction false} NatToStringDigits(n: nat)
    ensures IsNumeric(NatToString(n))
    ensures forall i :: 0 <= i < |NatToString(n)| ==>
      CharDigit(NatToString(n)[i]) == Digits(n, |NatToString(n)|)[i]
    decreases n
  {
    NatDigitsAreNumeric(n);
    if n >= 10 {
      NatToStringDigits(n / 10);
      var s, w := NatToString(n), |NatToString(n)|;
      assert s == NatToString(n / 10) + [DigitChar(n % 10)];
      assert Digits(n, w) == Digits(n / 10, w - 1) + [n % 10];
    }
  }

  // ---------------------------------------------------------------------------
  // The source's pipeline computes the reference total

  /** Doubling then reducing a digit at position `pos` is the reference term. */
  lemma ReducedMultipliedIsTerm(s: string, i: nat)
    requires IsNumeric(s) && i < |s|
    ensures Reduced(Multiplied(s))[i] == Term(i + 1, CharDigit(s[i]))
  {
    var d := CharDigit(s[i]);
    if (i + 1) % 2 == 0 && 2 * d >= 10 {
      assert (2 * d) / 10 == 1 && (2 * d) % 10 == 2 * d - 10;
    }
  }

  /** A sum of reference terms, accumulated left to right, is the reference total. */
  lemma {:induction false} SumOfTerms(xs: seq<nat>, ds: seq<nat>)
    requires |xs| == |ds|
    requires forall i :: 0 <= i < |ds| ==> ds[i] < 10
    requires forall i :: 0 <= i < |xs| ==> xs[i] == Term(i + 1, ds[i])
    ensures Sum(xs) == Total(ds)
    decreases |xs|
  {
    if xs != [] {
      SumOfTerms(xs[..|xs| - 1], ds[..|ds| - 1]);
    }
  }

  /**
   * The verdict of `check_id_valid` on a 9-digit integer: valid exactly when the
   * weighted total of its nine digits is divisible by 10.
   */
  lemma VerdictIsWeightedTotal(n: int)
    requires InRange(n)
    ensures CheckIdValid(n) == Ok(Total(Digits(n, 9)) % 10 == 0)
  {
    IntToStringNine(n);
    NatToStringDigits(n);
    var s := IntToString(n);
    var xs, ds := Reduced(Multiplied(s)), Digits(n, 9);
    forall i | 0 <= i < 9
      ensures xs[i] == Term(i + 1, ds[i])
    {
      ReducedMultipliedIsTerm(s, i);
    }
    SumOfTerms(xs, ds);
  }

  // ---------------------------------------------------------------------------
  // The check digit

  /** The last digit that completes the first eight digits `p` to a valid ID. */
  function CheckDigit(p: nat): (c: nat)
    ensures c < 10
    ensures (Total(Digits(p, 8)) + c) % 10 == 0
  {
    var t := Total(Digits(p, 8));
    CompletesToTen(t, (10 - t % 10) % 10);
    (10 - t % 10) % 10
  }

  /** Appending a last digit `c` to `p` appends `c` to its decimal digits. */
  lemma DigitsAppend(p: nat, c: nat, w: nat)
    requires c < 10
    ensures Digits(10 * p + c, w + 1) == Digits(p, w) + [c]
  {
    assert (10 * p + c) / 10 == p && (10 * p + c) % 10 == c;
  }

  /**
   * Position 9 is odd and never doubled, so among the ten IDs sharing the first eight
   * digits `p`, the one ending in `c` is valid exactly when `c` is the check digit.
   */
  lemma DecadeHasOneValid(p: nat, c: nat)
    requires MinId / 10 <= p <= MaxId / 10 && c < 10
    ensures IsValid(10 * p + c) <==> c == CheckDigit(p)
  {
    hide CheckIdValid;
    var n := 10 * p + c;
    VerdictIsWeightedTotal(n);
    var w := 8;
    DigitsAppend(p, c, w);
    var ds := Digits(p, w) + [c];
    assert ds[..w] == Digits(p, w);
    assert Total(ds) == Total(Digits(p, w)) + Term(w + 1, c);
    CompletesToTen(Total(Digits(p, w)), c);
  }

  /** The one last digit that brings a total to a multiple of 10. */
  lemma CompletesToTen(t: nat, c: nat)
    requires c < 10
    ensures (t + c) % 10 == 0 <==> c == (10 - t % 10) % 10
  {
    var q, r := t / 10, t % 10;
    assert t + c == 10 * q + (r + c);
    assert (t + c) % 10 == (r + c) % 10;
  }

  /** The decimal digits of 99999999 are eight nines. */
  lemma TopPrefixDigits()
    ensures Digits(MaxId / 10, 8) == [9, 9, 9, 9, 9, 9, 9, 9]
  {
    assert Digits(9, 1) == [9];
    assert Digits(99, 2) == [9, 9];
    assert Digits(999, 3) == [9, 9, 9];
    assert Digits(9999, 4) == [9, 9, 9, 9];
    assert Digits(99999, 5) == [9, 9, 9, 9, 9];
    assert Digits(999999, 6) == [9, 9, 9, 9, 9, 9];
    assert Digits(9999999, 7) == [9, 9, 9, 9, 9, 9, 9];
  }

  /** A nine contributes 9 at every position, doubled (18 - 9) or not. */
  lemma {:induction false} NinesTotal(ds: seq<nat>)
    requires forall i :: 0 <= i < |ds| ==> ds[i] == 9
    ensures Total(ds) == 9 * |ds|
    decreases |ds|
  {
    if ds != [] {
      NinesTotal(ds[..|ds| - 1]);
    }
  }

  /** Eight nines have weighted total 72, so the check digit of 99999999 is 8. */
  lemma TopCheckDigit()
    ensures CheckDigit(MaxId / 10) == 8
  {
    TopPrefixDigits();
    NinesTotal([9, 9, 9, 9, 9, 9, 9, 9]);
  }

  /** The last valid ID is 999999998: 999999999 fails its checksum. */
  lemma LastValidId()
    ensures IsValid(MaxId - 1)
    ensures !IsValid(MaxId)
  {
    hide CheckIdValid;
    var p := MaxId / 10;
    TopCheckDigit();
    DecadeHasOneValid(p, 8);
    DecadeHasOneValid(p, 9);
  }
}
