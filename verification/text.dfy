/**
 * The two standard-library string helpers the core relies on:
 * `strings.ToLower` for case-insensitive comparison and `strconv.Atoi`
 * for the year filter's text parameter.
 */
module Text {
  import opened Wrappers

  // ---------------------------------------------------------------------
  // Lower-casing (ASCII letters only)
  // ---------------------------------------------------------------------

  predicate IsUpper(c: char) {
    'A' <= c <= 'Z'
  }

  function LowerChar(c: char): char {
    if IsUpper(c) then (c as int - 'A' as int + 'a' as int) as char else c
  }

  /** `strings.ToLower`, restricted to the ASCII letters. */
  function ToLower(s: string): (r: string)
    ensures |r| == |s|
    ensures forall i :: 0 <= i < |r| ==> !IsUpper(r[i])
    ensures forall i :: 0 <= i < |s| && !IsUpper(s[i]) ==> r[i] == s[i]
    ensures forall i :: 0 <= i < |s| && IsUpper(s[i]) ==> r[i] as int == s[i] as int + ('a' as int - 'A' as int)
  {
    if s == [] then [] else [LowerChar(s[0])] + ToLower(s[1..])
  }

  /** The comparison the filters use: both sides lower-cased, then compared. */
  predicate SameIgnoringCase(a: string, b: string) {
    ToLower(a) == ToLower(b)
  }

  /** `strings.ToUpper` on ASCII letters; used only to state case-insensitivity. */
  function ToUpper(s: string): (r: string)
    ensures |r| == |s|
  {
    if s == [] then []
    else [if 'a' <= s[0] <= 'z' then (s[0] as int - 'a' as int + 'A' as int) as char else s[0]] + ToUpper(s[1..])
  }

  /** Upper-casing a text never changes what it matches. */
  lemma {:induction false} UpperMatchesLower(s: string)
    ensures SameIgnoringCase(ToUpper(s), s)
  {
    if s != [] {
      UpperMatchesLower(s[1..]);
      assert ToUpper(s)[1..] == ToUpper(s[1..]);
    }
  }

  // ---------------------------------------------------------------------
  // strconv.Atoi on a 64-bit platform
  // ---------------------------------------------------------------------

  /** The two failure kinds of Go's `*strconv.NumError`. */
  datatype NumErrorKind = ErrSyntax | ErrRange

  const MaxUint64: nat := 0xFFFF_FFFF_FFFF_FFFF
  const MaxInt64: nat := 0x7FFF_FFFF_FFFF_FFFF
  /** Magnitude of the most negative int64. */
  const MinInt64Magnitude: nat := 0x8000_0000_0000_0000

  predicate InInt64(n: int) {
    -(MinInt64Magnitude as int) <= n <= MaxInt64
  }

  predicate IsDigit(c: char) {
    '0' <= c <= '9'
  }

  function DigitValue(c: char): (d: nat)
    requires IsDigit(c)
    ensures d < 10
  {
    c as int - '0' as int
  }

  predicate AllDigits(s: string) {
    forall i :: 0 <= i < |s| ==> IsDigit(s[i])
  }

  function Pow10(n: nat): (p: nat)
    ensures p >= 1
  {
    if n == 0 then 1 else 10 * Pow10(n - 1)
  }

  /** The mathematical value of a digit string, most significant digit first. */
  function DecimalValue(s: string): nat
    requires AllDigits(s)
  {
    if s == [] then 0 else DigitValue(s[0]) * Pow10(|s| - 1) + DecimalValue(s[1..])
  }

  /**
   * The digit loop of `strconv.ParseUint` for base 10 and 64 bits: digits
   * are accumulated left to right, a non-digit is a syntax error, and an
   * accumulator that would pass 2^64-1 is a range error at once, before
   * the rest of the text is looked at.
   */
  function ScanDigits(s: string, acc: nat): Result<nat, NumErrorKind>
  {
    if s == [] then Ok(acc)
    else if !IsDigit(s[0]) then Err(ErrSyntax)
    else
      var next := acc * 10 + DigitValue(s[0]);
      if next > MaxUint64 then Err(ErrRange) else ScanDigits(s[1..], next)
  }

  /** `strconv.Atoi`: one optional sign, at least one decimal digit, int64 range. */
  function Atoi(s: string): (r: Result<int, NumErrorKind>)
    ensures r.Ok? ==> InInt64(r.value)
  {
    if s == [] then Err(ErrSyntax)
    else
      var negative := s[0] == '-';
      var digits := if s[0] == '+' || s[0] == '-' then s[1..] else s;
      if digits == [] then Err(ErrSyntax)
      else match ScanDigits(digits, 0)
        case Err(kind) => Err(kind)
        case Ok(u) =>
          if !negative && u > MaxInt64 then Err(ErrRange)
          else if negative && u > MinInt64Magnitude then Err(ErrRange)
          else Ok(if negative then 0 - u else u)
  }

  /** The texts Atoi can accept: an optional sign followed by one or more digits. */
  predicate WellFormedInteger(s: string) {
    |s| > 0 &&
    var digits := if s[0] == '+' || s[0] == '-' then s[1..] else s;
    |digits| > 0 && AllDigits(digits)
  }

  /** The signed value a well-formed text denotes, with no range limit. */
  function SignedValue(s: string): int
    requires WellFormedInteger(s)
  {
    if s[0] == '-' then 0 - DecimalValue(s[1..])
    else if s[0] == '+' then DecimalValue(s[1..])
    else DecimalValue(s)
  }

  /** Shifting an accumulator by one more digit, as an identity on products. */
  lemma ShiftDigit(acc: nat, d: nat, p: nat)
    ensures acc * (10 * p) + d * p == (acc * 10 + d) * p
    ensures p >= 1 ==> acc * 10 + d <= (acc * 10 + d) * p
  {
  }

  lemma {:induction false} ScanDigitsValue(s: string, acc: nat)
    requires AllDigits(s) && acc <= MaxUint64
    ensures var total := acc * Pow10(|s|) + DecimalValue(s);
            ScanDigits(s, acc) == if total <= MaxUint64 then Ok(total) else Err(ErrRange)
  {
    var total := acc * Pow10(|s|) + DecimalValue(s);
    if s == [] {
      assert total == acc;
    } else {
      var d := DigitValue(s[0]);
      var next := acc * 10 + d;
      var rest := s[1..];
      var p := Pow10(|rest|);
      assert Pow10(|s|) == 10 * p;
      assert DecimalValue(s) == d * p + DecimalValue(rest);
      ShiftDigit(acc, d, p);
      assert total == next * p + DecimalValue(rest);
      if next <= MaxUint64 {
        assert ScanDigits(s, acc) == ScanDigits(rest, next);
        ScanDigitsValue(rest, next);
      } else {
        assert ScanDigits(s, acc) == Err(ErrRange);
        assert total > MaxUint64;
      }
    }
  }

  lemma ScanDigitsRejectsNonDigits(s: string, acc: nat)
    requires !AllDigits(s)
    ensures ScanDigits(s, acc).Err?
  {
    if IsDigit(s[0]) {
      var next := acc * 10 + DigitValue(s[0]);
      if next <= MaxUint64 {
        assert !AllDigits(s[1..]) by {
          var i :| 0 <= i < |s| && !IsDigit(s[i]);
          assert s[1..][i - 1] == s[i];
        }
        ScanDigitsRejectsNonDigits(s[1..], next);
      }
    }
  }

  /**
   * Atoi against its reference meaning: it fails on every text that is not
   * a signed decimal numeral, and on a numeral it succeeds exactly when the
   * denoted value fits in an int64, returning that value.
   */
  lemma AtoiMeaning(s: string)
    ensures !WellFormedInteger(s) ==> Atoi(s).Err?
    ensures WellFormedInteger(s) ==>
              (Atoi(s).Ok? <==> InInt64(SignedValue(s))) &&
              (Atoi(s).Ok? ==> Atoi(s).value == SignedValue(s))
    ensures WellFormedInteger(s) && !InInt64(SignedValue(s)) ==> Atoi(s) == Err(ErrRange)
  {
    if s != [] {
      var digits := if s[0] == '+' || s[0] == '-' then s[1..] else s;
      if digits != [] {
        if AllDigits(digits) {
          ScanDigitsValue(digits, 0);
        } else {
          ScanDigitsRejectsNonDigits(digits, 0);
        }
      }
    }
  }

  // ---------------------------------------------------------------------
  // Decimal formatting: the inverse of Atoi on the int64 range
  // ---------------------------------------------------------------------

  function DigitChar(d: nat): (c: char)
    requires d < 10
    ensures IsDigit(c) && DigitValue(c) == d
  {
    ('0' as int + d) as char
  }

  /** Decimal digits of a natural number, no leading zeros. */
  function Digits(n: nat): (s: string)
    ensures |s| > 0 && AllDigits(s)
  {
    if n < 10 then [DigitChar(n)] else Digits(n / 10) + [DigitChar(n % 10)]
  }

  /** `strconv.Itoa`: a leading '-' for negatives, then the digits. */
  function Itoa(n: int): string {
    if n < 0 then "-" + Digits(-n) else Digits(n)
  }

  lemma {:induction false} DecimalValueAppend(s: string, c: char)
    requires AllDigits(s) && IsDigit(c)
    ensures AllDigits(s + [c])
    ensures DecimalValue(s + [c]) == DecimalValue(s) * 10 + DigitValue(c)
  {
    if s != [] {
      assert (s + [c])[1..] == s[1..] + [c];
      DecimalValueAppend(s[1..], c);
      var p := Pow10(|s| - 1);
      var d := DigitValue(s[0]);
      var r := DecimalValue(s[1..]);
      assert Pow10(|s|) == 10 * p;
      assert DecimalValue(s + [c]) == d * (10 * p) + (r * 10 + DigitValue(c));
      AppendArithmetic(d, p, r, DigitValue(c));
    }
  }

  lemma AppendArithmetic(d: nat, p: nat, r: nat, e: nat)
    ensures d * (10 * p) + (r * 10 + e) == (d * p + r) * 10 + e
  {
  }

  lemma {:induction false} DigitsValue(n: nat)
    ensures DecimalValue(Digits(n)) == n
  {
    if n >= 10 {
      DigitsValue(n / 10);
      DecimalValueAppend(Digits(n / 10), DigitChar(n % 10));
    }
  }

  /** Every int64 survives formatting followed by Atoi. */
  lemma AtoiItoaRoundTrip(n: int)
    requires InInt64(n)
    ensures Atoi(Itoa(n)) == Ok(n)
  {
    var m: nat := if n < 0 then -n else n;
    DigitsValue(m);
    var s := Itoa(n);
    if n < 0 {
      assert s[1..] == Digits(m);
    } else {
      assert Digits(m)[0] != '-' && Digits(m)[0] != '+';
    }
    AtoiMeaning(s);
  }

  /** A text with no digit at all, such as "abc", is a syntax error. */
  lemma AtoiRejectsWords()
    ensures Atoi("abc") == Err(ErrSyntax)
    ensures Atoi("") == Err(ErrSyntax)
    ensures Atoi("-") == Err(ErrSyntax)
  {
  }
}
