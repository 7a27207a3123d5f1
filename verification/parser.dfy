/**
 * ParsePolynomial (internal/polynomial/polynomial.go): from a polynomial
 * written in `x`, such as "x^2 - 5x + 6", to its coefficient vector, constant
 * term first.
 */
module Parser {
  import opened Results
  import opened Text
  import opened Terms

  /** The errors ParsePolynomial returns, one per `fmt.Errorf` it can reach. */
  datatype ParseError =
    | NoTerms                           // no match of the term pattern at all
    | UnmatchedText                     // the matches do not spell the whole input
    | InvalidDegree(term: string)       // the exponent after `x^` is not an int
    | InvalidCoefficient(term: string)  // the magnitude before `x` does not parse
    | InvalidConstant(term: string)     // a constant term does not parse

  // ---------------------------------------------------------------------
  // What one term contributes.

  /**
   * The slot a term is added into: the exponent of `x^k`, 1 for a bare `x`
   * (even one followed by digits, as the first pass treats it), 0 for a
   * constant.  None when Atoi rejects the exponent.
   */
  function Degree(t: Term): Option<nat> {
    match t.power
    case Caret(e) => Atoi(e)
    case Bare(_) => Some(1)
    case NoVariable => Some(0)
  }

  /** A missing magnitude stands for 1, or for -1 after a minus sign. */
  function DefaultMagnitude(c: string): string {
    if c == "" || c == "+" then "1" else if c == "-" then "-1" else c
  }

  /** `strings.TrimSuffix(w, "x")` */
  function TrimSuffixX(w: string): string {
    if |w| > 0 && w[|w| - 1] == 'x' then w[..|w| - 1] else w
  }

  /**
   * The coefficient of a term, None when ParseFloat rejects it.  For `x^k`
   * the text before "x^" is the sign and mantissa; for a bare `x` the text is
   * the term with one trailing 'x' trimmed (so `x2` keeps its 'x' and fails);
   * a constant is parsed whole.
   */
  function Coefficient(t: Term): Option<real> {
    match t.power
    case Caret(_) => ParseFloat(DefaultMagnitude(t.sign + t.mantissa))
    case Bare(_) => ParseFloat(DefaultMagnitude(TrimSuffixX(Lexeme(t))))
    case NoVariable => ParseFloat(Lexeme(t))
  }

  /** The error the second pass reports for a term whose coefficient does not parse. */
  function CoefficientError(t: Term): ParseError {
    if t.power.NoVariable? then InvalidConstant(Lexeme(t)) else InvalidCoefficient(Lexeme(t))
  }

  // ---------------------------------------------------------------------
  // What the whole list of terms gives.

  /** The first term, in order, on which `f` fails. */
  function FirstFailing<T>(ts: seq<Term>, f: Term -> Option<T>): (r: Option<Term>)
    ensures r.Some? ==> r.value in ts && f(r.value).None?
  {
    if ts == [] then None
    else if f(ts[0]).None? then Some(ts[0])
    else FirstFailing(ts[1..], f)
  }

  function Max(a: nat, b: nat): nat { if a < b then b else a }

  /** The degree of a term, 0 when its exponent is invalid. */
  function DegreeOf(t: Term): nat {
    match Degree(t)
    case Some(d) => d
    case None => 0
  }

  /** The coefficient of a term, 0 when it does not parse. */
  function CoefficientOf(t: Term): real {
    match Coefficient(t)
    case Some(c) => c
    case None => 0.0
  }

  /** The largest degree among the terms, 0 for none. */
  function MaxDegree(ts: seq<Term>): nat {
    if ts == [] then 0 else Max(MaxDegree(ts[..|ts| - 1]), DegreeOf(ts[|ts| - 1]))
  }

  /** The sum of the coefficients of the terms of degree `k`. */
  function CoefficientSum(ts: seq<Term>, k: nat): real {
    if ts == [] then 0.0
    else CoefficientSum(ts[..|ts| - 1], k) + (if Degree(ts[|ts| - 1]) == Some(k) then CoefficientOf(ts[|ts| - 1]) else 0.0)
  }

  /** The coefficient vector of a list of terms: one slot per degree up to the largest. */
  function Accumulate(ts: seq<Term>): seq<real> {
    seq(MaxDegree(ts) + 1, k requires 0 <= k => CoefficientSum(ts, k))
  }

  /** The terms FindAllString returns for the space-stripped input. */
  function TermsOf(input: string): seq<Term> {
    ScanTermAnchored();
    FindAll(ScanTerm, RemoveSpaces(input), 0)
  }

  /**
   * What ParsePolynomial returns: the errors in the order the function checks
   * them, else slot k holds the sum of the coefficients of the degree-k terms
   * and there is one slot per degree up to the largest.
   */
  function Parse(input: string): Result<seq<real>, ParseError> {
    var ts := TermsOf(input);
    if ts == [] then Err(NoTerms)
    else if Join(ts) != RemoveSpaces(input) then Err(UnmatchedText)
    else match FirstFailing(ts, Degree)
      case Some(t) => Err(InvalidDegree(Lexeme(t)))
      case None =>
        match FirstFailing(ts, Coefficient)
        case Some(t) => Err(CoefficientError(t))
        case None => Ok(Accumulate(ts))
  }

  // ---------------------------------------------------------------------
  // The two passes, as the source runs them.

  /**
   * ParsePolynomial: strip spaces, find the terms, check that they tile the
   * input, find the largest degree (first pass), then add every coefficient
   * into its slot of a zeroed vector (second pass).
   */
  method ParsePolynomial(polyStr: string) returns (res: Result<seq<real>, ParseError>)
    ensures res == Parse(polyStr)
  {
    var cleaned := RemoveSpaces(polyStr);
    ScanTermAnchored();
    var terms := FindAll(ScanTerm, cleaned, 0);
    assert terms == TermsOf(polyStr);
    if |terms| == 0 {
      return Err(NoTerms);
    }
    if Join(terms) != cleaned {
      return Err(UnmatchedText);
    }
    var maxDegree, bad := LargestDegree(terms);
    if bad.Some? {
      return Err(InvalidDegree(Lexeme(bad.value)));
    }
    res := AddCoefficients(terms, maxDegree);
  }

  /**
   * The first pass: the largest degree among the terms, or the first term
   * whose exponent does not parse.
   */
  method LargestDegree(terms: seq<Term>) returns (maxDegree: nat, bad: Option<Term>)
    ensures bad == FirstFailing(terms, Degree)
    ensures bad.None? ==> maxDegree == MaxDegree(terms)
  {
    maxDegree := 0;
    var i := 0;
    while i < |terms|
      invariant 0 <= i <= |terms|
      invariant FirstFailing(terms[..i], Degree) == None
      invariant maxDegree == MaxDegree(terms[..i])
    {
      var term := terms[i];
      match term.power {
        case Caret(e) =>
          var degree := Atoi(e);
          if degree.None? {
            FirstFailingAt(terms, Degree, i);
            return maxDegree, Some(term);
          }
          if degree.value > maxDegree {
            maxDegree := degree.value;
          }
        case Bare(_) =>
          if maxDegree < 1 {
            maxDegree := 1;
          }
        case NoVariable =>
      }
      FirstFailingExtend(terms, Degree, i);
      assert terms[..i + 1][..i] == terms[..i];
      i := i + 1;
    }
    assert terms[..i] == terms;
    bad := None;
  }

  /**
   * The second pass: a zeroed vector of `maxDegree + 1` slots, each term's
   * coefficient added into the slot of its degree, or the error for the first
   * term whose coefficient does not parse.
   */
  method AddCoefficients(terms: seq<Term>, maxDegree: nat) returns (res: Result<seq<real>, ParseError>)
    requires FirstFailing(terms, Degree) == None && maxDegree == MaxDegree(terms)
    ensures res == match FirstFailing(terms, Coefficient)
                   case Some(t) => Err(CoefficientError(t))
                   case None => Ok(Accumulate(terms))
  {
    var coefficients := new real[maxDegree + 1](_ => 0.0);
    var i := 0;
    while i < |terms|
      invariant 0 <= i <= |terms|
      invariant FirstFailing(terms[..i], Coefficient) == None
      invariant forall k :: 0 <= k < coefficients.Length ==> coefficients[k] == CoefficientSum(terms[..i], k)
    {
      var term := terms[i];
      var coeff := Coefficient(term);
      if coeff.None? {
        FirstFailingAt(terms, Coefficient, i);
        return Err(CoefficientError(term));
      }
      FirstFailingExtend(terms, Coefficient, i);
      FirstFailingNoneAt(terms, Degree, i);
      var degree := Degree(term).value;
      DegreeBelowMax(terms, i);
      ghost var before := coefficients[..];
      coefficients[degree] := coefficients[degree] + coeff.value;
      forall k | 0 <= k < coefficients.Length
        ensures coefficients[k] == CoefficientSum(terms[..i + 1], k)
      {
        CoefficientSumStep(terms, i, k);
        assert coefficients[k] == before[k] + (if k == degree then coeff.value else 0.0);
      }
      i := i + 1;
    }
    assert terms[..i] == terms;
    assert coefficients[..] == Accumulate(terms);
    res := Ok(coefficients[..]);
  }

  // ---------------------------------------------------------------------
  // Lemmas the two passes rest on.

  /** The first failing term is the one at the first index where `f` fails. */
  lemma {:induction false} FirstFailingAt<T>(ts: seq<Term>, f: Term -> Option<T>, i: nat)
    requires i < |ts| && FirstFailing(ts[..i], f) == None && f(ts[i]).None?
    ensures FirstFailing(ts, f) == Some(ts[i])
  {
    if i > 0 {
      assert ts[..i][1..] == ts[1..][..i - 1];
      FirstFailingAt(ts[1..], f, i - 1);
    }
  }

  /** A prefix on which nothing fails grows by a term on which `f` succeeds. */
  lemma {:induction false} FirstFailingExtend<T>(ts: seq<Term>, f: Term -> Option<T>, i: nat)
    requires i < |ts| && FirstFailing(ts[..i], f) == None && f(ts[i]).Some?
    ensures FirstFailing(ts[..i + 1], f) == None
  {
    if i > 0 {
      assert ts[..i][1..] == ts[1..][..i - 1];
      assert ts[..i + 1][1..] == ts[1..][..i];
      FirstFailingExtend(ts[1..], f, i - 1);
    } else {
      assert ts[..1][1..] == [];
    }
  }

  /** When nothing fails, `f` succeeds on every term. */
  lemma {:induction false} FirstFailingNoneAt<T>(ts: seq<Term>, f: Term -> Option<T>, i: nat)
    requires i < |ts| && FirstFailing(ts, f) == None
    ensures f(ts[i]).Some?
  {
    if i > 0 {
      FirstFailingNoneAt(ts[1..], f, i - 1);
    }
  }

  /** The sums grow by one term at a time. */
  lemma CoefficientSumStep(ts: seq<Term>, i: nat, k: nat)
    requires i < |ts|
    ensures CoefficientSum(ts[..i + 1], k) ==
      CoefficientSum(ts[..i], k) + (if Degree(ts[i]) == Some(k) then CoefficientOf(ts[i]) else 0.0)
  {
    assert ts[..i + 1][..i] == ts[..i];
  }

  /** Every term's degree is at most the largest; so every slot written is in bounds. */
  lemma {:induction false} DegreeBelowMax(ts: seq<Term>, i: nat)
    requires i < |ts|
    ensures DegreeOf(ts[i]) <= MaxDegree(ts)
  {
    if i < |ts| - 1 {
      assert ts[..|ts| - 1][i] == ts[i];
      DegreeBelowMax(ts[..|ts| - 1], i);
    }
  }

  // ---------------------------------------------------------------------
  // What Parse promises.

  /** The tiling of the space-stripped input by consecutive terms, if there is one. */
  function Tiling(input: string): Option<seq<Term>> {
    ScanTermAnchored();
    Tokenize(ScanTerm, RemoveSpaces(input), 0)
  }

  /** The search finds nothing exactly when no position of the stripped input starts a term. */
  lemma NoTermsFound(input: string)
    ensures var s := RemoveSpaces(input);
      TermsOf(input) == [] <==> forall q :: 0 <= q < |s| ==> ScanTerm(s[q..]).None?
  {
    var s := RemoveSpaces(input);
    ScanTermAnchored();
    assert TermsOf(input) == FindAll(ScanTerm, s, 0);
    FindAllEmpty(ScanTerm, s, 0);
    var scan := ScanTerm;
    forall q | 0 <= q < |s|
      ensures scan(s[q..]) == ScanTerm(s[q..])
    {
    }
  }

  /** No terms exactly when no position of the stripped input starts a term. */
  lemma ParseNoTerms(input: string)
    ensures var s := RemoveSpaces(input);
      Parse(input) == Err(NoTerms) <==> forall q :: 0 <= q < |s| ==> ScanTerm(s[q..]).None?
  {
    NoTermsFound(input);
    assert Parse(input) == Err(NoTerms) <==> TermsOf(input) == [];
  }

  /** The terms found tile the stripped input exactly when it tokenizes. */
  lemma TermsTile(input: string)
    ensures Join(TermsOf(input)) == RemoveSpaces(input) <==> Tiling(input).Some?
    ensures Tiling(input).Some? ==> TermsOf(input) == Tiling(input).value
  {
    var s := RemoveSpaces(input);
    ScanTermAnchored();
    assert s[0..] == s;
    FindAllTiles(ScanTerm, s, 0);
    if Tiling(input).Some? {
      FindAllIsTokenize(ScanTerm, s, 0);
    }
  }

  /** Unmatched text exactly when terms exist but do not tile the stripped input. */
  lemma ParseUnmatched(input: string)
    ensures Parse(input) == Err(UnmatchedText) <==> TermsOf(input) != [] && Tiling(input).None?
  {
    TermsTile(input);
  }

  /** Success exactly when the terms tile the input and every exponent and coefficient converts. */
  lemma ParseSucceeds(input: string)
    ensures Parse(input).Ok? <==>
      match Tiling(input)
      case None => false
      case Some(ts) => ts != [] && FirstFailing(ts, Degree).None? && FirstFailing(ts, Coefficient).None?
  {
    TermsTile(input);
  }

  /** The largest degree is the degree of some term. */
  lemma {:induction false} MaxDegreeAttained(ts: seq<Term>)
    requires ts != []
    ensures exists i :: 0 <= i < |ts| && DegreeOf(ts[i]) == MaxDegree(ts)
  {
    var n := |ts| - 1;
    if n > 0 && MaxDegree(ts[..n]) > DegreeOf(ts[n]) {
      MaxDegreeAttained(ts[..n]);
      var i :| 0 <= i < n && DegreeOf(ts[..n][i]) == MaxDegree(ts[..n]);
      assert DegreeOf(ts[i]) == MaxDegree(ts);
    } else {
      assert DegreeOf(ts[n]) == MaxDegree(ts);
    }
  }

  /** No term has a degree above the largest, so the sum there is zero. */
  lemma {:induction false} CoefficientSumAboveMax(ts: seq<Term>, k: nat)
    requires k > MaxDegree(ts)
    ensures CoefficientSum(ts, k) == 0.0
  {
    if ts != [] {
      CoefficientSumAboveMax(ts[..|ts| - 1], k);
    }
  }

  /** The sums are additive over a split of the term list. */
  lemma {:induction false} CoefficientSumAppend(a: seq<Term>, b: seq<Term>, k: nat)
    ensures CoefficientSum(a + b, k) == CoefficientSum(a, k) + CoefficientSum(b, k)
  {
    if b != [] {
      assert (a + b)[..|a + b| - 1] == a + b[..|b| - 1];
      CoefficientSumAppend(a, b[..|b| - 1], k);
    } else {
      assert a + b == a;
    }
  }

  /** So the order in which two runs of terms appear does not change the vector. */
  lemma CoefficientSumSwap(a: seq<Term>, b: seq<Term>, k: nat)
    ensures CoefficientSum(a + b, k) == CoefficientSum(b + a, k)
  {
    CoefficientSumAppend(a, b, k);
    CoefficientSumAppend(b, a, k);
  }

  /**
   * A successful parse: the terms spell the stripped input; the vector has
   * one slot per degree up to the largest one used, and the largest is used;
   * slot k holds the sum of the degree-k coefficients and no term is left
   * out (every degree beyond the vector sums to zero).
   */
  lemma ParseResult(input: string)
    requires Parse(input).Ok?
    ensures var ts, c := TermsOf(input), Parse(input).value;
      && Join(ts) == RemoveSpaces(input)
      && (forall i :: 0 <= i < |ts| ==> Degree(ts[i]).Some? && Degree(ts[i]).value < |c|)
      && (exists i :: 0 <= i < |ts| && DegreeOf(ts[i]) == |c| - 1)
      && (forall k :: 0 <= k < |c| ==> c[k] == CoefficientSum(ts, k))
      && (forall k: nat :: k >= |c| ==> CoefficientSum(ts, k) == 0.0)
  {
    var ts := TermsOf(input);
    MaxDegreeAttained(ts);
    forall i | 0 <= i < |ts|
      ensures Degree(ts[i]).Some? && Degree(ts[i]).value < MaxDegree(ts) + 1
    {
      FirstFailingNoneAt(ts, Degree, i);
      DegreeBelowMax(ts, i);
    }
    forall k: nat | k >= MaxDegree(ts) + 1
      ensures CoefficientSum(ts, k) == 0.0
    {
      CoefficientSumAboveMax(ts, k);
    }
  }

  /** An unsigned decimal with digits around at most one dot, ending in a digit, is a Magnitude. */
  lemma MantissaConverts(m: string)
    requires Mantissa(m) && m != [] && IsDigit(m[|m| - 1])
    ensures Magnitude(m).Some?
  {
    var k := DotIndex(m);
    if k < |m| {
      assert forall j :: k < j < |m| ==> m[j] != '.';
    }
  }

  /**
   * A signed such decimal converts to its signed magnitude, unless the
   * magnitude is beyond float64's range.
   */
  lemma SignedMantissaConverts(sign: string, m: string)
    requires sign == "" || sign == "+" || sign == "-"
    requires Mantissa(m) && m != [] && IsDigit(m[|m| - 1])
    ensures Magnitude(m).Some?
    ensures Magnitude(m).value < FloatOverflow ==> ParseFloat(sign + m) == Some(Signed(sign, Magnitude(m).value))
    ensures Magnitude(m).value >= FloatOverflow ==> ParseFloat(sign + m) == None
  {
    MantissaConverts(m);
    assert m[0] != '-' && m[0] != '+' by {
      assert IsDigit(m[0]) || m[0] == '.';
    }
    SignedConverts(sign, m, Magnitude(m).value);
  }

  /** A sign in front of a magnitude: "-" negates it, "" and "+" keep it; beyond float64's range it is an error. */
  lemma SignedConverts(sign: string, m: string, v: real)
    requires sign == "" || sign == "+" || sign == "-"
    requires m != [] && m[0] != '-' && m[0] != '+' && Magnitude(m) == Some(v)
    ensures v < FloatOverflow ==> ParseFloat(sign + m) == Some(Signed(sign, v))
    ensures v >= FloatOverflow ==> ParseFloat(sign + m) == None
  {
    if sign == "" {
      assert sign + m == m;
    } else {
      SignSplit(sign, m);
    }
  }

  /** A constant term converts exactly when its magnitude is within float64's range. */
  lemma ConstantConverts(t: Term)
    requires WellFormed(t) && t.power.NoVariable?
    ensures Magnitude(t.mantissa).Some?
    ensures Coefficient(t).Some? <==> Magnitude(t.mantissa).value < FloatOverflow
  {
    assert Lexeme(t) == t.sign + t.mantissa;
    SignedMantissaConverts(t.sign, t.mantissa);
  }

  /** `t` is the constant `w` and its magnitude is beyond float64's range. */
  ghost predicate Overflows(t: Term, w: string) {
    && t.power.NoVariable? && Lexeme(t) == w
    && Magnitude(t.mantissa).Some? && Magnitude(t.mantissa).value >= FloatOverflow
  }

  /**
   * An invalid constant is reported only for a constant term whose magnitude
   * is beyond float64's range; the text of a constant always has the syntax
   * ParseFloat accepts.
   */
  lemma InvalidConstantOverflows(input: string)
    requires Parse(input).Err? && Parse(input).error.InvalidConstant?
    ensures exists i :: 0 <= i < |TermsOf(input)| && Overflows(TermsOf(input)[i], Parse(input).error.term)
  {
    var ts := TermsOf(input);
    ScanTermAnchored();
    ScanTermProducesWellFormed();
    FindAllWellFormed(ScanTerm, RemoveSpaces(input), 0);
    var t := FirstFailing(ts, Coefficient).value;
    var i :| 0 <= i < |ts| && ts[i] == t;
    ConstantConverts(t);
  }

  /** And every integer constant beyond float64's range is reported as invalid. */
  lemma HugeConstantRejected(m: string)
    requires m != [] && AllDigits(m) && Natural(m) as real >= FloatOverflow
    ensures Parse(m) == Err(InvalidConstant(m))
  {
    var t := Term("", m, NoVariable);
    assert ' ' !in m by {
      forall i | 0 <= i < |m| ensures m[i] != ' ' {
        assert IsDigit(m[i]);
      }
    }
    RemoveSpacesKeeps(m);
    ScanDigits(m);
    ScanTermAnchored();
    assert Lexeme(t) == m;
    assert m + [] == m;
    FindAllFirst(ScanTerm, m, [], t);
    assert TermsOf(m) == [t];
    assert Join([t]) == m;
    UnsignedIntegerConverts(m, Natural(m) as real);
    assert Coefficient(t) == None;
  }

  /** The implicit magnitudes "1" and "-1". */
  lemma ImplicitMagnitudes()
    ensures ParseFloat("1") == Some(1.0) && ParseFloat("-1") == Some(-1.0)
  {
    assert AllDigits("1") && "1"[..0] == [];
    assert Natural("1") == 1;
    assert "-1"[1..] == "1";
  }

  /**
   * A term with no magnitude before its `x` has coefficient 1, or -1 after a
   * minus sign.
   */
  lemma ImplicitCoefficient(t: Term)
    requires WellFormed(t) && t.mantissa == [] && (t.power.Caret? || t.power == Bare(""))
    ensures Coefficient(t) == Some(if t.sign == "-" then -1.0 else 1.0)
  {
    ImplicitMagnitudes();
    if t.power.Bare? {
      assert Lexeme(t) == t.sign + "x";
      assert TrimSuffixX(Lexeme(t)) == t.sign;
    } else {
      assert t.sign + t.mantissa == t.sign;
    }
  }

  /** Nothing with an 'x' in it converts. */
  lemma MagnitudeRejectsX(s: string, i: nat)
    requires i < |s| && s[i] == 'x'
    ensures Magnitude(s).None?
  {
    var k := DotIndex(s);
    if i < k {
      assert s[..k][i] == 'x';
    } else if i > k {
      assert s[k + 1..][i - k - 1] == 'x';
    }
  }

  lemma ParseFloatRejectsX(s: string, i: nat)
    requires i < |s| && s[i] == 'x'
    ensures ParseFloat(s).None?
  {
    if i > 0 && (s[0] == '-' || s[0] == '+') {
      assert s[1..][i - 1] == 'x';
      MagnitudeRejectsX(s[1..], i - 1);
    } else if i == 0 {
      MagnitudeRejectsX(s, i);
    } else {
      MagnitudeRejectsX(s, i);
    }
  }

  /**
   * A bare `x` followed by digits (`x2`) is read with degree 1 but never
   * converts: trimming a trailing 'x' leaves the 'x' in place.
   */
  lemma TrailingDigitsRejected(t: Term)
    requires WellFormed(t) && t.power.Bare? && t.power.trailing != []
    ensures Coefficient(t).None?
  {
    var d := t.power.trailing;
    var w := Lexeme(t);
    var i := |t.sign| + |t.mantissa|;
    assert w == t.sign + t.mantissa + "x" + d;
    assert w[i] == 'x';
    assert w[|w| - 1] == d[|d| - 1];
    assert IsDigit(d[|d| - 1]);
    assert TrimSuffixX(w) == w;
    assert DefaultMagnitude(w) == w;
    ParseFloatRejectsX(w, i);
  }

  /** A signed value: the sign "-" negates, "" and "+" do not. */
  function Signed(sign: string, v: real): real {
    if sign == "-" then -v else v
  }

  /** A signed integer converts to its signed value, within float64's range. */
  lemma SignedIntegerConverts(sign: string, m: string, v: real)
    requires sign == "" || sign == "+" || sign == "-"
    requires m != [] && AllDigits(m) && v == Natural(m) as real
    ensures v < FloatOverflow ==> ParseFloat(sign + m) == Some(Signed(sign, v))
    ensures v >= FloatOverflow ==> ParseFloat(sign + m) == None
  {
    DigitsMagnitude(m);
    assert IsDigit(m[0]);
    SignedConverts(sign, m, v);
  }

  /**
   * A term with an explicit integer magnitude has that magnitude, signed, as
   * its coefficient, whatever its power; beyond float64's range it has none.
   */
  lemma ExplicitCoefficient(t: Term, v: real)
    requires t.sign == "" || t.sign == "+" || t.sign == "-"
    requires t.mantissa != [] && AllDigits(t.mantissa) && v == Natural(t.mantissa) as real
    requires t.power.Caret? || t.power == Bare("") || t.power.NoVariable?
    ensures v < FloatOverflow ==> Coefficient(t) == Some(Signed(t.sign, v))
    ensures v >= FloatOverflow ==> Coefficient(t) == None
  {
    var c := t.sign + t.mantissa;
    assert c != "" && c != "+" && c != "-" by {
      assert c[|c| - 1] == t.mantissa[|t.mantissa| - 1];
      assert IsDigit(c[|c| - 1]);
    }
    if t.power.Bare? {
      assert Lexeme(t) == c + "x";
      assert TrimSuffixX(Lexeme(t)) == c;
    } else if t.power.NoVariable? {
      assert Lexeme(t) == c;
    }
    SignedIntegerConverts(t.sign, t.mantissa, v);
  }

  /** Spaces anywhere in the input make no difference. */
  lemma SpacesIgnored(a: string, b: string)
    ensures Parse(a + " " + b) == Parse(a + b)
  {
    RemoveSpacesAppend(a + " ", b);
    RemoveSpacesAppend(a, " ");
    RemoveSpacesAppend(a, b);
    assert RemoveSpaces(" ") == [];
    assert RemoveSpaces(a + " " + b) == RemoveSpaces(a + b);
  }
}
