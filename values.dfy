/** Cell values of the warehouse tables and the scalar conversions the
    transform and profiling steps apply to them: ASCII lower-casing,
    numeric coercion of text (`pd.to_numeric(..., errors='coerce')`) and
    the truncation done by `astype(int64)`. */
module Values {

  datatype Option<T> = None | Some(value: T)

  /** One cell of a table: pandas' missing marker (NaN / None), a Python
      `str`, or a number. Numbers are exact reals, so `20.5` is exactly
      41/2; the binary floating-point representation is not modelled. */
  datatype Value = Null | Str(s: string) | Num(x: real)

  // ---------------------------------------------------------------------
  // Lower-casing (`Series.str.lower`), for the ASCII letters A-Z

  predicate IsUpper(c: char) { 'A' <= c <= 'Z' }

  function LowerChar(c: char): char
  {
    if IsUpper(c) then (c as int + 32) as char else c
  }

  /** A string is in lower-case form when it holds no upper-case letter. */
  predicate IsLowerCase(s: string)
  {
    forall i :: 0 <= i < |s| ==> !IsUpper(s[i])
  }

  /** Lower-cased copy of `s`: same length, no upper-case letter left, and a
      string already in lower-case form is its own lower-case form. */
  function Lower(s: string): (r: string)
    ensures |r| == |s|
    ensures IsLowerCase(r)
    ensures IsLowerCase(s) ==> r == s
  {
    seq(|s|, i requires 0 <= i < |s| => LowerChar(s[i]))
  }

  /** Lower-casing changes only letters: character by character, the result
      is the input or that letter moved to lower case. */
  lemma LowerKeepsNonLetters(s: string, i: nat)
    requires i < |s|
    ensures !IsUpper(s[i]) ==> Lower(s)[i] == s[i]
    ensures IsUpper(s[i]) ==> Lower(s)[i] as int == s[i] as int + 32
  {
  }

  // ---------------------------------------------------------------------
  // Decimal text to number, the part of `pd.to_numeric` the model covers:
  // an optional sign, decimal digits, an optional point and fraction digits,
  // with at least one digit in all.

  predicate IsDigit(c: char) { '0' <= c <= '9' }

  predicate AllDigits(s: string)
  {
    forall i :: 0 <= i < |s| ==> IsDigit(s[i])
  }

  function DigitValue(c: char): nat
    requires IsDigit(c)
  {
    c as int - '0' as int
  }

  /** The natural number a string of decimal digits denotes ("" is 0). */
  function DigitsValue(s: string): nat
    requires AllDigits(s)
  {
    if s == [] then 0 else DigitsValue(s[..|s| - 1]) * 10 + DigitValue(s[|s| - 1])
  }

  function Pow10(k: nat): (p: nat)
    ensures p >= 1
  {
    if k == 0 then 1 else 10 * Pow10(k - 1)
  }

  /** Position of the first '.' in `s`, if there is one. */
  function FindPoint(s: string): (k: Option<nat>)
    ensures k.Some? ==> k.value < |s| && s[k.value] == '.' && forall j :: 0 <= j < k.value ==> s[j] != '.'
    ensures k.None? ==> forall j :: 0 <= j < |s| ==> s[j] != '.'
  {
    if s == [] then None
    else if s[0] == '.' then Some(0)
    else match FindPoint(s[1..])
      case None => None
      case Some(k) => Some(k + 1)
  }

  /** An unsigned decimal: digits, or digits '.' digits, with at least one digit. */
  function ParseUnsigned(s: string): (r: Option<real>)
    ensures r.Some? ==> r.value >= 0.0
  {
    match FindPoint(s)
    case None =>
      if s != [] && AllDigits(s) then Some(DigitsValue(s) as real) else None
    case Some(k) =>
      var whole, frac := s[..k], s[k + 1..];
      if AllDigits(whole) && AllDigits(frac) && |whole| + |frac| > 0 then
        Some(DigitsValue(whole) as real + DigitsValue(frac) as real / Pow10(|frac|) as real)
      else None
  }

  /** The number a cell's text denotes, or None when the text is not a number. */
  function ParseNum(s: string): (r: Option<real>)
    ensures r.Some? && s != [] && s[0] == '-' ==> r.value <= 0.0
    ensures r.Some? && (s == [] || s[0] != '-') ==> r.value >= 0.0
    ensures s == [] ==> r.None?
  {
    if s != [] && s[0] == '-' then
      match ParseUnsigned(s[1..])
      case Some(x) => Some(-x)
      case None => None
    else if s != [] && s[0] == '+' then ParseUnsigned(s[1..])
    else ParseUnsigned(s)
  }

  // ---------------------------------------------------------------------
  // The decimal rendering of an integer, used to state the round trip of
  // numeric coercion: text written the way Python's `str(int)` writes a
  // number coerces back to that number.

  function DigitChar(d: nat): (c: char)
    requires d < 10
    ensures IsDigit(c) && DigitValue(c) == d
  {
    ('0' as int + d) as char
  }

  function NatToString(n: nat): (s: string)
    ensures s != [] && AllDigits(s)
    ensures forall j :: 0 <= j < |s| ==> s[j] != '.'
  {
    if n < 10 then [DigitChar(n)] else NatToString(n / 10) + [DigitChar(n % 10)]
  }

  function IntToString(n: int): string
  {
    if n < 0 then "-" + NatToString(-n) else NatToString(n)
  }

  lemma {:induction false} DigitsValueOfNatToString(n: nat)
    ensures DigitsValue(NatToString(n)) == n
  {
    var s := NatToString(n);
    if n >= 10 {
      assert s[..|s| - 1] == NatToString(n / 10);
      DigitsValueOfNatToString(n / 10);
    }
  }

  /** Round trip: coercing the decimal rendering of an integer yields it. */
  lemma {:induction false} ParseNumOfIntToString(n: int)
    ensures ParseNum(IntToString(n)) == Some(n as real)
  {
    if n < 0 {
      var s := NatToString(-n);
      assert ("-" + s)[0] == '-' && ("-" + s)[1..] == s;
      ParseUnsignedOfNatToString(-n);
    } else {
      var s := NatToString(n);
      assert IsDigit(s[0]);
      ParseUnsignedOfNatToString(n);
    }
  }

  lemma ParseUnsignedOfNatToString(n: nat)
    ensures ParseUnsigned(NatToString(n)) == Some(n as real)
  {
    var s := NatToString(n);
    assert FindPoint(s).None?;
    DigitsValueOfNatToString(n);
  }

  // ---------------------------------------------------------------------
  // Coercion of one cell, as `pd.to_numeric(col, errors='coerce')` does it

  /** A numeric cell keeps its number, text that parses becomes that number,
      anything else becomes Null. */
  function Coerce(v: Value): (w: Value)
    ensures w.Null? || w.Num?
    ensures v.Num? ==> w == v
    ensures v.Null? ==> w.Null?
    ensures v.Str? ==> (w.Num? <==> ParseNum(v.s).Some?)
    ensures v.Str? && w.Num? ==> w.x == ParseNum(v.s).value
  {
    match v
    case Null => Null
    case Num(x) => v
    case Str(s) => match ParseNum(s) case Some(x) => Num(x) case None => Null
  }

  /** Coercion is a numeric reading of a cell: coercing twice changes
      nothing more, the decimal text of an integer reads as that integer,
      and empty text reads as Null. */
  lemma CoerceReadsNumbers(v: Value, n: int)
    ensures Coerce(Coerce(v)) == Coerce(v)
    ensures Coerce(Str(IntToString(n))) == Num(n as real)
    ensures Coerce(Str("")) == Null
  {
    ParseNumOfIntToString(n);
  }

  /** `astype(int64)` on a float: truncation toward zero. The result is the
      integer of the same sign whose distance from `x` is below one and
      which is not further from zero than `x`. */
  function Trunc(x: real): (n: int)
    ensures x >= 0.0 ==> 0.0 <= n as real <= x < n as real + 1.0
    ensures x < 0.0 ==> n as real - 1.0 < x <= n as real <= 0.0
  {
    if x >= 0.0 then x.Floor else -((-x).Floor)
  }

  /** Truncating an integer leaves it unchanged, so truncation is idempotent. */
  lemma {:induction false} TruncIdempotent(x: real)
    ensures Trunc(Trunc(x) as real) == Trunc(x)
  {
    var n := Trunc(x);
    if n < 0 {
      assert (-(n as real)).Floor == -n;
    }
  }
}
