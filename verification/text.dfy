/**
 * Character classes and the two number conversions the polynomial parser calls:
 * `strconv.ParseFloat` (an exact decimal value, with float64's range error) and
 * `strconv.Atoi` (with the 64-bit range check).  Only strings over `[+-.0-9x]`
 * ever reach them, and on those strings the models below accept exactly what
 * the Go library accepts; the value is exact where Go rounds to a float64.
 */
module Text {
  import opened Results

  /** Largest value of Go's 64-bit `int`; `Atoi` reports a range error above it. */
  const MaxInt: nat := 0x7fff_ffff_ffff_ffff

  /**
   * The magnitude from which `strconv.ParseFloat(s, 64)` rounds to infinity and
   * reports a range error: 2^1024 - 2^970, halfway between the largest float64
   * (2^1024 - 2^971) and 2^1024, where rounding to even goes up.
   */
  const FloatOverflow: real := 179769313486231580793728971405303415079934132710037826936173778980444968292764750946649017977587207096330286416692887910946555547851940402630657488671505820681908902000708383676273854845817711531764475730270069855571366959622842914819860834936475292719074168444365510704342711559699508093042880177904174497792.0

  predicate IsDigit(c: char) { '0' <= c <= '9' }

  predicate IsSign(c: char) { c == '+' || c == '-' }

  predicate AllDigits(s: string) {
    forall i :: 0 <= i < |s| ==> IsDigit(s[i])
  }

  function DigitValue(c: char): (d: nat)
    requires IsDigit(c)
    ensures d < 10
  {
    c as int - '0' as int
  }

  /** The value of a string of decimal digits; the empty string is 0. */
  function Natural(s: string): nat
    requires AllDigits(s)
  {
    if s == [] then 0 else Natural(s[..|s| - 1]) * 10 + DigitValue(s[|s| - 1])
  }

  function Pow10(n: nat): (p: nat)
    ensures p >= 1
  {
    if n == 0 then 1 else 10 * Pow10(n - 1)
  }

  /** A string of digits has a value below 10 to the power of its length. */
  lemma {:induction false} NaturalBound(s: string)
    requires AllDigits(s)
    ensures Natural(s) < Pow10(|s|)
  {
    if s != [] {
      NaturalBound(s[..|s| - 1]);
    }
  }

  /** `strings.ReplaceAll(s, " ", "")`: only the space character is removed. */
  function RemoveSpaces(s: string): string {
    if s == [] then []
    else if s[0] == ' ' then RemoveSpaces(s[1..])
    else [s[0]] + RemoveSpaces(s[1..])
  }

  /**
   * RemoveSpaces leaves no space, keeps every other character as often as it
   * occurs, and changes nothing in a string without spaces.
   */
  lemma {:induction false} RemoveSpacesKeeps(s: string)
    ensures ' ' !in RemoveSpaces(s)
    ensures |RemoveSpaces(s)| <= |s|
    ensures ' ' !in s ==> RemoveSpaces(s) == s
    ensures forall c :: c != ' ' ==> multiset(RemoveSpaces(s))[c] == multiset(s)[c]
  {
    if s != [] {
      RemoveSpacesKeeps(s[1..]);
      assert s == [s[0]] + s[1..];
    }
  }

  /** Removing spaces works piece by piece. */
  lemma {:induction false} RemoveSpacesAppend(a: string, b: string)
    ensures RemoveSpaces(a + b) == RemoveSpaces(a) + RemoveSpaces(b)
  {
    if a != [] {
      assert (a + b)[1..] == a[1..] + b;
      RemoveSpacesAppend(a[1..], b);
    } else {
      assert a + b == b;
    }
  }

  /** Index of the first '.' in `s`, or |s| when there is none. */
  function DotIndex(s: string): (k: nat)
    ensures k <= |s|
    ensures k < |s| ==> s[k] == '.'
    ensures forall i :: 0 <= i < k ==> s[i] != '.'
  {
    if s == [] then 0
    else if s[0] == '.' then 0
    else 1 + DotIndex(s[1..])
  }

  /** The exact value of `whole.frac`. */
  function Decimal(whole: string, frac: string): (v: real)
    requires AllDigits(whole) && AllDigits(frac)
    ensures v >= 0.0
    ensures frac == [] ==> v == Natural(whole) as real
  {
    Natural(whole) as real + Natural(frac) as real / Pow10(|frac|) as real
  }

  /** A string of digits has no '.', so all of it is the whole part. */
  lemma DigitsHaveNoDot(s: string)
    ensures AllDigits(s) ==> DotIndex(s) == |s| && s[..DotIndex(s)] == s
  {
  }

  /**
   * An unsigned decimal `digits[.digits]` with at least one digit; the value is
   * exact (no rounding to float64).
   */
  function Magnitude(s: string): (r: Option<real>)
    ensures r.Some? ==> r.value >= 0.0
    ensures r.Some? ==> s != []
    ensures AllDigits(s) && s != [] ==> r == Some(Natural(s) as real)
  {
    var k := DotIndex(s);
    var whole := s[..k];
    var frac := if k < |s| then s[k + 1..] else [];
    if AllDigits(whole) && AllDigits(frac) && |whole| + |frac| > 0 then
      DigitsHaveNoDot(s);
      Some(Decimal(whole, frac))
    else
      None
  }

  /** A magnitude float64 can hold; a larger one is ParseFloat's range error. */
  function Finite(m: Option<real>): (r: Option<real>)
    ensures r.Some? <==> m.Some? && m.value < FloatOverflow
    ensures r.Some? ==> r == m
  {
    match m
    case Some(v) => if v < FloatOverflow then m else None
    case None => None
  }

  /**
   * `strconv.ParseFloat(s, 64)` on strings built from signs, digits, '.' and 'x':
   * an optional sign followed by a Magnitude below FloatOverflow.  (Anything
   * with an 'x' fails, as in Go, where a hexadecimal mantissa needs a 'p'
   * exponent that cannot occur here.)
   */
  function ParseFloat(s: string): Option<real>
  {
    if s != [] && s[0] == '-' then
      match Finite(Magnitude(s[1..]))
      case Some(m) => Some(-m)
      case None => None
    else if s != [] && s[0] == '+' then Finite(Magnitude(s[1..]))
    else Finite(Magnitude(s))
  }

  /**
   * `strconv.Atoi(s)` on strings without a sign: anything but a non-empty run of
   * digits is a syntax error, a value above MaxInt a range error.
   */
  function Atoi(s: string): (r: Option<nat>)
    ensures r.Some? <==> s != [] && AllDigits(s) && Natural(s) <= MaxInt
    ensures r.Some? ==> r.value == Natural(s)
  {
    if s == [] || !AllDigits(s) || Natural(s) > MaxInt then None else Some(Natural(s))
  }

  // ---------------------------------------------------------------------
  // Atoi against a printer of decimals.

  function DigitChar(d: nat): (c: char)
    requires d < 10
    ensures IsDigit(c) && DigitValue(c) == d
  {
    ('0' as int + d) as char
  }

  /** The decimal digits of `n`, most significant first, without leading zeros. */
  function DecimalString(n: nat): (s: string)
    ensures s != [] && AllDigits(s)
  {
    if n < 10 then [DigitChar(n)] else DecimalString(n / 10) + [DigitChar(n % 10)]
  }

  /** The digits DecimalString prints read back as the number. */
  lemma {:induction false} NaturalOfDecimalString(n: nat)
    ensures Natural(DecimalString(n)) == n
  {
    var s := DecimalString(n);
    if n >= 10 {
      NaturalOfDecimalString(n / 10);
      assert s[..|s| - 1] == DecimalString(n / 10);
    } else {
      assert s[..0] == [];
    }
  }

  /** Atoi reads back every printed int and rejects every printed number above MaxInt. */
  lemma AtoiRoundTrip(n: nat)
    ensures n <= MaxInt ==> Atoi(DecimalString(n)) == Some(n)
    ensures n > MaxInt ==> Atoi(DecimalString(n)) == None
  {
    NaturalOfDecimalString(n);
  }

  // ---------------------------------------------------------------------
  // Magnitude on decimals with a fractional part.

  /** Digits appended to a digit string shift it left by their count. */
  lemma {:induction false} NaturalAppend(w: string, f: string)
    requires AllDigits(w) && AllDigits(f)
    ensures AllDigits(w + f) && Natural(w + f) == Natural(w) * Pow10(|f|) + Natural(f)
  {
    if f != [] {
      var n := |f| - 1;
      var g := f[..n];
      NaturalLast(w + f, w + g, f[n]);
      NaturalLast(f, g, f[n]);
      NaturalAppend(w, g);
      ShiftStep(Natural(w), Natural(g), Pow10(n), DigitValue(f[n]));
    } else {
      assert w + f == w;
    }
  }

  /** The value of a digit string with its last digit split off. */
  lemma NaturalLast(s: string, init: string, c: char)
    requires s == init + [c] && AllDigits(s)
    ensures AllDigits(init) && IsDigit(c) && Natural(s) == Natural(init) * 10 + DigitValue(c)
  {
    assert s[..|s| - 1] == init;
    assert s[|s| - 1] == c;
  }

  lemma ShiftStep(a: nat, b: nat, p: nat, d: nat)
    ensures (a * p + b) * 10 + d == a * (p * 10) + (b * 10 + d)
  {
  }

  /** w.f is the number w f divided by 10 per fractional digit. */
  lemma ShiftedValue(a: nat, b: nat, p: nat)
    requires p >= 1
    ensures (a * p + b) as real / p as real == a as real + b as real / p as real
  {
  }

  /** The split of `w.f` at its dot. */
  lemma DotSplit(w: string, f: string)
    requires AllDigits(w) && AllDigits(f)
    ensures var s := w + "." + f;
      DotIndex(s) == |w| && s[..|w|] == w && s[|w| + 1..] == f
  {
    var s := w + "." + f;
    assert s[|w|] == '.';
    assert forall i :: 0 <= i < |w| ==> s[i] == w[i];
    DotIndexAt(s, |w|);
  }

  /** The first dot is where DotIndex says. */
  lemma {:induction false} DotIndexAt(s: string, k: nat)
    requires k < |s| && s[k] == '.' && forall i :: 0 <= i < k ==> s[i] != '.'
    ensures DotIndex(s) == k
  {
    if k > 0 {
      DotIndexAt(s[1..], k - 1);
    }
  }

  /**
   * A decimal with a dot has the exact value of its digits read as one number
   * and divided by 10 per digit after the dot.
   */
  lemma DecimalValue(w: string, f: string)
    requires AllDigits(w) && AllDigits(f) && |w| + |f| > 0
    ensures Magnitude(w + "." + f) == Some(Natural(w + f) as real / Pow10(|f|) as real)
  {
    DecimalSplit(w, f);
    DecimalShifted(w, f);
  }

  /** `w.f` is the number `wf` shifted right by the length of f. */
  lemma DecimalShifted(w: string, f: string)
    requires AllDigits(w) && AllDigits(f)
    ensures AllDigits(w + f) && Decimal(w, f) == Natural(w + f) as real / Pow10(|f|) as real
  {
    NaturalAppend(w, f);
    var a, b, p := Natural(w), Natural(f), Pow10(|f|);
    ShiftedValue(a, b, p);
  }

  /** Magnitude reads `w.f` as its whole part w and fractional part f. */
  lemma DecimalSplit(w: string, f: string)
    requires AllDigits(w) && AllDigits(f) && |w| + |f| > 0
    ensures Magnitude(w + "." + f) == Some(Decimal(w, f))
  {
    DotSplit(w, f);
  }

  /** A dot without digits is no number. */
  lemma DotAlone()
    ensures Magnitude(".") == None
  {
    assert DotIndex(".") == 0;
  }

  // ---------------------------------------------------------------------
  // ParseFloat on integers.

  /** An unsigned integer converts to its value, unless it is beyond float64's range. */
  lemma UnsignedIntegerConverts(m: string, v: real)
    requires m != [] && AllDigits(m) && v == Natural(m) as real
    ensures v < FloatOverflow ==> ParseFloat(m) == Some(v)
    ensures v >= FloatOverflow ==> ParseFloat(m) == None
  {
    assert IsDigit(m[0]);
  }

  /** A string of digits is a magnitude with the digits' value. */
  lemma DigitsMagnitude(m: string)
    requires m != [] && AllDigits(m)
    ensures Magnitude(m) == Some(Natural(m) as real)
  {
  }

  /** A one-character sign in front of a string. */
  lemma SignSplit(sign: string, m: string)
    requires |sign| == 1
    ensures sign + m != [] && (sign + m)[0] == sign[0] && (sign + m)[1..] == m
  {
  }

  /** A minus sign negates the magnitude after it; beyond float64's range it is an error. */
  lemma NegativeConverts(s: string, v: real)
    requires s != [] && s[0] == '-' && Magnitude(s[1..]) == Some(v)
    ensures v < FloatOverflow ==> ParseFloat(s) == Some(-v)
    ensures v >= FloatOverflow ==> ParseFloat(s) == None
  {
  }

  /** A plus sign leaves the magnitude after it as it is; beyond float64's range it is an error. */
  lemma PositiveConverts(s: string, v: real)
    requires s != [] && s[0] == '+' && Magnitude(s[1..]) == Some(v)
    ensures v < FloatOverflow ==> ParseFloat(s) == Some(v)
    ensures v >= FloatOverflow ==> ParseFloat(s) == None
  {
  }

  /** A negated integer converts to the negated value, within float64's range. */
  lemma NegativeIntegerConverts(m: string, v: real)
    requires m != [] && AllDigits(m) && v == Natural(m) as real
    ensures v < FloatOverflow ==> ParseFloat("-" + m) == Some(-v)
    ensures v >= FloatOverflow ==> ParseFloat("-" + m) == None
  {
    DigitsMagnitude(m);
    SignSplit("-", m);
    NegativeConverts("-" + m, v);
  }

  /** An integer after a plus sign converts to its value, within float64's range. */
  lemma PositiveIntegerConverts(m: string, v: real)
    requires m != [] && AllDigits(m) && v == Natural(m) as real
    ensures v < FloatOverflow ==> ParseFloat("+" + m) == Some(v)
    ensures v >= FloatOverflow ==> ParseFloat("+" + m) == None
  {
    DigitsMagnitude(m);
    SignSplit("+", m);
    PositiveConverts("+" + m, v);
  }
}
