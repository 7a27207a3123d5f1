/**
 * ParsePolynomial on the inputs of its unit tests, and on inputs that show how
 * the term pattern and the two passes interact.  Longer inputs are written as
 * the concatenation of their terms ("x^2" + ("-5x" + "+6") is the input
 * "x^2-5x+6"), which keeps the verifier from evaluating the scanner eagerly on
 * the whole literal.
 */
module ParserExamples {
  import opened Results
  import opened Text
  import opened Terms
  import opened Parser

  // ---------------------------------------------------------------------
  // Steps shared by the examples.

  /** On text without spaces, the terms are those FindAll finds in the text itself. */
  lemma SpaceFree(input: string)
    requires ' ' !in input
    ensures Anchored(ScanTerm) && TermsOf(input) == FindAll(ScanTerm, input, 0)
    ensures RemoveSpaces(input) == input
  {
    ScanTermAnchored();
    RemoveSpacesKeeps(input);
  }

  /** Parse sees only the input with its spaces removed. */
  lemma SameStripped(a: string, b: string)
    requires RemoveSpaces(a) == RemoveSpaces(b)
    ensures Parse(a) == Parse(b)
  {
  }

  /** An input written in three pieces parses like its pieces with their spaces removed. */
  lemma Stripped3(a1: string, a2: string, a3: string, b1: string, b2: string, b3: string)
    requires RemoveSpaces(a1) == b1 && RemoveSpaces(a2) == b2 && RemoveSpaces(a3) == b3
    ensures Parse(a1 + (a2 + a3)) == Parse(b1 + (b2 + b3))
  {
    RemoveSpacesAppend(a2, a3);
    RemoveSpacesAppend(a1, a2 + a3);
    RemoveSpacesKeeps(a1 + (a2 + a3));
    RemoveSpacesKeeps(b1 + (b2 + b3));
    SameStripped(a1 + (a2 + a3), b1 + (b2 + b3));
  }

  /** The same for four pieces. */
  lemma Stripped4(a1: string, a2: string, a3: string, a4: string, b1: string, b2: string, b3: string, b4: string)
    requires RemoveSpaces(a1) == b1 && RemoveSpaces(a2) == b2 && RemoveSpaces(a3) == b3 && RemoveSpaces(a4) == b4
    ensures Parse(a1 + (a2 + (a3 + a4))) == Parse(b1 + (b2 + (b3 + b4)))
  {
    RemoveSpacesAppend(a3, a4);
    RemoveSpacesAppend(a2, a3 + a4);
    RemoveSpacesAppend(a1, a2 + (a3 + a4));
    RemoveSpacesKeeps(a1 + (a2 + (a3 + a4)));
    RemoveSpacesKeeps(b1 + (b2 + (b3 + b4)));
    SameStripped(a1 + (a2 + (a3 + a4)), b1 + (b2 + (b3 + b4)));
  }

  lemma FoundOne(scan: string -> Option<Term>, w: string, t: Term)
    requires Anchored(scan) && scan(w) == Some(t) && Lexeme(t) == w
    ensures FindAll(scan, w, 0) == [t] && Join([t]) == w
  {
    assert w + "" == w;
    FindAllFirst(scan, w, "", t);
  }

  lemma FoundTwo(scan: string -> Option<Term>, w1: string, w2: string, t1: Term, t2: Term)
    requires Anchored(scan)
    requires scan(w1 + w2) == Some(t1) && Lexeme(t1) == w1
    requires scan(w2) == Some(t2) && Lexeme(t2) == w2
    ensures FindAll(scan, w1 + w2, 0) == [t1, t2] && Join([t1, t2]) == w1 + w2
  {
    FoundOne(scan, w2, t2);
    FindAllFirst(scan, w1, w2, t1);
    assert [t1, t2][1..] == [t2];
  }

  lemma FoundThree(scan: string -> Option<Term>, w1: string, w2: string, w3: string, t1: Term, t2: Term, t3: Term)
    requires Anchored(scan)
    requires scan(w1 + (w2 + w3)) == Some(t1) && Lexeme(t1) == w1
    requires scan(w2 + w3) == Some(t2) && Lexeme(t2) == w2
    requires scan(w3) == Some(t3) && Lexeme(t3) == w3
    ensures FindAll(scan, w1 + (w2 + w3), 0) == [t1, t2, t3] && Join([t1, t2, t3]) == w1 + (w2 + w3)
  {
    FoundTwo(scan, w2, w3, t2, t3);
    FindAllFirst(scan, w1, w2 + w3, t1);
    assert [t1, t2, t3][1..] == [t2, t3];
  }

  lemma FoundFour(scan: string -> Option<Term>, w1: string, w2: string, w3: string, w4: string,
                  t1: Term, t2: Term, t3: Term, t4: Term)
    requires Anchored(scan)
    requires scan(w1 + (w2 + (w3 + w4))) == Some(t1) && Lexeme(t1) == w1
    requires scan(w2 + (w3 + w4)) == Some(t2) && Lexeme(t2) == w2
    requires scan(w3 + w4) == Some(t3) && Lexeme(t3) == w3
    requires scan(w4) == Some(t4) && Lexeme(t4) == w4
    ensures FindAll(scan, w1 + (w2 + (w3 + w4)), 0) == [t1, t2, t3, t4]
    ensures Join([t1, t2, t3, t4]) == w1 + (w2 + (w3 + w4))
  {
    FoundThree(scan, w2, w3, w4, t2, t3, t4);
    FindAllFirst(scan, w1, w2 + (w3 + w4), t1);
    assert [t1, t2, t3, t4][1..] == [t2, t3, t4];
  }

  // ---------------------------------------------------------------------
  // Reading one term that is followed by a sign or by the end of the text.

  /** Where the next term starts: at the end, or at a sign. */
  predicate NextTerm(rest: string) {
    rest == [] || IsSign(rest[0])
  }

  /** What may follow a bare `x`: neither an exponent nor digits. */
  predicate AfterBare(rest: string) {
    rest == [] || (!IsDigit(rest[0]) && rest[0] != '^')
  }

  predicate ValidSign(sign: string) {
    sign == "" || sign == "+" || sign == "-"
  }

  lemma {:induction false} DigitsEndAt(s: string, i: nat, j: nat)
    requires i <= j <= |s| && AllDigits(s[i..j]) && (j == |s| || !IsDigit(s[j]))
    ensures DigitsEnd(s, i) == j
    decreases j - i
  {
    if i < j {
      assert IsDigit(s[i..j][0]);
      assert s[i + 1..j] == s[i..j][1..];
      DigitsEndAt(s, i + 1, j);
    }
  }

  /** The sign, then digits up to b. */
  ghost predicate Shape(s: string, a: nat, b: nat)
  {
    && a <= b <= |s|
    && SignEnd(s) == a
    && AllDigits(s[a..b])
  }

  lemma {:induction false} SignedDigits(sign: string, m: string, tail: string)
    requires ValidSign(sign) && AllDigits(m) && (m == [] ==> tail != [] && tail[0] == 'x')
    ensures Shape(sign + m + tail, |sign|, |sign| + |m|)
    ensures (sign + m + tail)[..|sign|] == sign
    ensures (sign + m + tail)[|sign|..|sign| + |m|] == m
    ensures (sign + m + tail)[|sign| + |m|..] == tail
  {
    var s := sign + m + tail;
    if sign == "" {
      assert s[0] == if m != [] then m[0] else tail[0];
    } else {
      assert s[0] == sign[0];
    }
  }

  lemma ScanNumberAt(s: string, a: nat, b: nat)
    requires Shape(s, a, b) && a < b && (b == |s| || IsSign(s[b]))
    ensures ScanTerm(s) == Some(Term(s[..a], s[a..b], NoVariable))
  {
    DigitsEndAt(s, a, b);
  }

  lemma ScanBareAt(s: string, a: nat, b: nat)
    requires Shape(s, a, b) && b < |s| && s[b] == 'x' && (b + 1 == |s| || (!IsDigit(s[b + 1]) && s[b + 1] != '^'))
    ensures ScanTerm(s) == Some(Term(s[..a], s[a..b], Bare("")))
  {
    DigitsEndAt(s, a, b);
    DigitsEndAt(s, b + 1, b + 1);
    assert s[b + 1..b + 1] == "";
  }

  lemma ScanCaretAt(s: string, a: nat, b: nat, c: nat)
    requires Shape(s, a, b) && b + 2 <= c <= |s| && s[b] == 'x' && s[b + 1] == '^'
    requires AllDigits(s[b + 2..c]) && (c == |s| || IsSign(s[c]))
    ensures ScanTerm(s) == Some(Term(s[..a], s[a..b], Caret(s[b + 2..c])))
  {
    DigitsEndAt(s, a, b);
    DigitsEndAt(s, b + 2, c);
  }

  /** What follows the digits of a power: `x^`, the exponent, the next term. */
  lemma CaretTail(s: string, b: nat, e: string, rest: string)
    requires b <= |s| && s[b..] == "x^" + e + rest && NextTerm(rest)
    ensures b + 2 + |e| <= |s| && s[b] == 'x' && s[b + 1] == '^'
    ensures s[b + 2..b + 2 + |e|] == e
    ensures b + 2 + |e| == |s| || IsSign(s[b + 2 + |e|])
  {
    var u := "x^" + e + rest;
    assert s[b] == u[0] && s[b + 1] == u[1];
    assert s[b + 2..b + 2 + |e|] == u[2..2 + |e|];
    if b + 2 + |e| < |s| {
      assert s[b + 2 + |e|] == u[2 + |e|] == rest[0];
    }
  }

  /** A signed integer followed by the next term is read as a constant. */
  lemma ScanNumber(w: string, sign: string, m: string, rest: string)
    requires w == sign + m && ValidSign(sign) && m != [] && AllDigits(m) && NextTerm(rest)
    ensures ScanTerm(w + rest) == Some(Term(sign, m, NoVariable)) && Lexeme(Term(sign, m, NoVariable)) == w
  {
    SignedDigits(sign, m, rest);
    ScanNumberAt(sign + m + rest, |sign|, |sign| + |m|);
  }

  /** A signed digit string and an `x` followed by the next term is read as a bare `x`. */
  lemma ScanBare(w: string, sign: string, m: string, rest: string)
    requires w == sign + m + "x" && ValidSign(sign) && AllDigits(m) && AfterBare(rest)
    ensures ScanTerm(w + rest) == Some(Term(sign, m, Bare(""))) && Lexeme(Term(sign, m, Bare(""))) == w
  {
    assert w + rest == sign + m + ("x" + rest);
    var s := sign + m + ("x" + rest);
    SignedDigits(sign, m, "x" + rest);
    var b := |sign| + |m|;
    assert s[b..] == "x" + rest;
    assert s[b] == 'x' && (b + 1 == |s| || s[b + 1] == rest[0]);
    ScanBareAt(s, |sign|, b);
  }

  /** The pieces of a power followed by the next term, at their positions. */
  lemma CaretParts(sign: string, m: string, e: string, rest: string)
    requires ValidSign(sign) && AllDigits(m) && AllDigits(e) && NextTerm(rest)
    ensures var s, a, b := sign + m + ("x^" + e + rest), |sign|, |sign| + |m|;
      && Shape(s, a, b) && b + 2 + |e| <= |s| && s[b] == 'x' && s[b + 1] == '^'
      && AllDigits(s[b + 2..b + 2 + |e|]) && (b + 2 + |e| == |s| || IsSign(s[b + 2 + |e|]))
      && s[..a] == sign && s[a..b] == m && s[b + 2..b + 2 + |e|] == e
  {
    var s := sign + m + ("x^" + e + rest);
    SignedDigits(sign, m, "x^" + e + rest);
    CaretTail(s, |sign| + |m|, e, rest);
  }

  /** `x^` and an exponent after a signed digit string, at the start of the text. */
  lemma CaretScanned(sign: string, m: string, e: string, rest: string)
    requires ValidSign(sign) && AllDigits(m) && AllDigits(e) && NextTerm(rest)
    ensures ScanTerm(sign + m + ("x^" + e + rest)) == Some(Term(sign, m, Caret(e)))
  {
    var s := sign + m + ("x^" + e + rest);
    var b := |sign| + |m|;
    CaretParts(sign, m, e, rest);
    ScanCaretAt(s, |sign|, b, b + 2 + |e|);
  }

  lemma CaretRegroup(w: string, sign: string, m: string, e: string, rest: string)
    requires w == sign + m + "x^" + e
    ensures w + rest == sign + m + ("x^" + e + rest)
  {
  }

  /** A signed digit string, `x^` and an exponent followed by the next term is read as a power. */
  lemma ScanCaret(w: string, sign: string, m: string, e: string, rest: string)
    requires w == sign + m + "x^" + e && ValidSign(sign) && AllDigits(m) && AllDigits(e) && NextTerm(rest)
    ensures ScanTerm(w + rest) == Some(Term(sign, m, Caret(e))) && Lexeme(Term(sign, m, Caret(e))) == w
  {
    CaretScanned(sign, m, e, rest);
    CaretRegroup(w, sign, m, e, rest);
  }

  // ---------------------------------------------------------------------
  // The vector of a list of terms whose degrees and coefficients are known.

  function MaxOf(ds: seq<nat>): nat {
    if ds == [] then 0 else Max(MaxOf(ds[..|ds| - 1]), ds[|ds| - 1])
  }

  function SumAt(ds: seq<nat>, cs: seq<real>, k: nat): real
    requires |ds| == |cs|
  {
    if ds == [] then 0.0
    else SumAt(ds[..|ds| - 1], cs[..|cs| - 1], k) + (if ds[|ds| - 1] == k then cs[|cs| - 1] else 0.0)
  }

  lemma {:induction false} NothingFails<T>(ts: seq<Term>, f: Term -> Option<T>)
    requires forall i :: 0 <= i < |ts| ==> f(ts[i]).Some?
    ensures FirstFailing(ts, f) == None
  {
    if ts != [] {
      NothingFails(ts[1..], f);
    }
  }

  lemma {:induction false} VectorOf(ts: seq<Term>, ds: seq<nat>, cs: seq<real>)
    requires |ts| == |ds| == |cs|
    requires forall i :: 0 <= i < |ts| ==> Degree(ts[i]) == Some(ds[i]) && Coefficient(ts[i]) == Some(cs[i])
    ensures MaxDegree(ts) == MaxOf(ds)
    ensures forall k: nat :: CoefficientSum(ts, k) == SumAt(ds, cs, k)
  {
    if ts != [] {
      var n := |ts| - 1;
      VectorOf(ts[..n], ds[..n], cs[..n]);
    }
  }

  /** The vector accumulated from terms of known degrees and coefficients. */
  lemma Vector(ts: seq<Term>, ds: seq<nat>, cs: seq<real>, v: seq<real>)
    requires |ts| == |ds| == |cs|
    requires forall i :: 0 <= i < |ts| ==> Degree(ts[i]) == Some(ds[i]) && Coefficient(ts[i]) == Some(cs[i])
    requires |v| == MaxOf(ds) + 1 && forall k :: 0 <= k < |v| ==> SumAt(ds, cs, k) == v[k]
    ensures FirstFailing(ts, Degree) == None && FirstFailing(ts, Coefficient) == None
    ensures Accumulate(ts) == v
  {
    NothingFails(ts, Degree);
    NothingFails(ts, Coefficient);
    VectorOf(ts, ds, cs);
  }

  /** The vector of two, three or four terms of known degrees and coefficients. */
  lemma Vector2(t0: Term, t1: Term, d0: nat, d1: nat, c0: real, c1: real, v: seq<real>)
    requires Degree(t0) == Some(d0) && Coefficient(t0) == Some(c0)
    requires Degree(t1) == Some(d1) && Coefficient(t1) == Some(c1)
    requires |v| == MaxOf([d0, d1]) + 1 && forall k :: 0 <= k < |v| ==> SumAt([d0, d1], [c0, c1], k) == v[k]
    ensures var ts := [t0, t1];
      FirstFailing(ts, Degree) == None && FirstFailing(ts, Coefficient) == None && Accumulate(ts) == v
  {
    Vector([t0, t1], [d0, d1], [c0, c1], v);
  }

  lemma Vector3(t0: Term, t1: Term, t2: Term, d0: nat, d1: nat, d2: nat, c0: real, c1: real, c2: real, v: seq<real>)
    requires Degree(t0) == Some(d0) && Coefficient(t0) == Some(c0)
    requires Degree(t1) == Some(d1) && Coefficient(t1) == Some(c1)
    requires Degree(t2) == Some(d2) && Coefficient(t2) == Some(c2)
    requires |v| == MaxOf([d0, d1, d2]) + 1 && forall k :: 0 <= k < |v| ==> SumAt([d0, d1, d2], [c0, c1, c2], k) == v[k]
    ensures var ts := [t0, t1, t2];
      FirstFailing(ts, Degree) == None && FirstFailing(ts, Coefficient) == None && Accumulate(ts) == v
  {
    Vector([t0, t1, t2], [d0, d1, d2], [c0, c1, c2], v);
  }

  lemma Vector4(t0: Term, t1: Term, t2: Term, t3: Term, d0: nat, d1: nat, d2: nat, d3: nat, c0: real, c1: real, c2: real, c3: real, v: seq<real>)
    requires Degree(t0) == Some(d0) && Coefficient(t0) == Some(c0)
    requires Degree(t1) == Some(d1) && Coefficient(t1) == Some(c1)
    requires Degree(t2) == Some(d2) && Coefficient(t2) == Some(c2)
    requires Degree(t3) == Some(d3) && Coefficient(t3) == Some(c3)
    requires |v| == MaxOf([d0, d1, d2, d3]) + 1 && forall k :: 0 <= k < |v| ==> SumAt([d0, d1, d2, d3], [c0, c1, c2, c3], k) == v[k]
    ensures var ts := [t0, t1, t2, t3];
      FirstFailing(ts, Degree) == None && FirstFailing(ts, Coefficient) == None && Accumulate(ts) == v
  {
    Vector([t0, t1, t2, t3], [d0, d1, d2, d3], [c0, c1, c2, c3], v);
  }

  /** The vector of a single term: its coefficient in its degree's slot, zeros below. */
  lemma SingleVector(t: Term, d: nat, c: real, v: seq<real>)
    requires Degree(t) == Some(d) && Coefficient(t) == Some(c)
    requires |v| == d + 1 && v[d] == c && forall k :: 0 <= k < d ==> v[k] == 0.0
    ensures FirstFailing([t], Degree) == None && FirstFailing([t], Coefficient) == None
    ensures Accumulate([t]) == v
  {
    assert [d][..0] == [] && [c][..0] == [];
    Vector([t], [d], [c], v);
  }

  /** A parse that gets through every check returns the accumulated vector. */
  lemma Accepted(input: string, ts: seq<Term>)
    requires TermsOf(input) == ts && ts != [] && Join(ts) == RemoveSpaces(input)
    requires FirstFailing(ts, Degree) == None && FirstFailing(ts, Coefficient) == None
    ensures Parse(input) == Ok(Accumulate(ts))
  {
  }

  /** Text without spaces: its terms are the ones found in it. */
  lemma Unspaced(w: string, ts: seq<Term>)
    requires ' ' !in w && FindAll(ScanTerm, w, 0) == ts && Join(ts) == w
    ensures TermsOf(w) == ts && Join(ts) == RemoveSpaces(w)
  {
    SpaceFree(w);
  }

  /** Terms that do not spell the whole text are reported as unmatched. */
  lemma Unmatched(input: string, ts: seq<Term>)
    requires TermsOf(input) == ts && ts != [] && Join(ts) != RemoveSpaces(input)
    ensures Parse(input) == Err(UnmatchedText)
  {
  }

  /** The first term whose exponent Atoi rejects is reported. */
  lemma DegreeRejected(input: string, ts: seq<Term>, t: Term)
    requires TermsOf(input) == ts && ts != [] && Join(ts) == RemoveSpaces(input)
    requires FirstFailing(ts, Degree) == Some(t)
    ensures Parse(input) == Err(InvalidDegree(Lexeme(t)))
  {
  }

  /** With every exponent valid, the first term whose magnitude ParseFloat rejects is reported. */
  lemma CoefficientRejected(input: string, ts: seq<Term>, t: Term)
    requires TermsOf(input) == ts && ts != [] && Join(ts) == RemoveSpaces(input)
    requires FirstFailing(ts, Degree) == None && FirstFailing(ts, Coefficient) == Some(t)
    ensures Parse(input) == Err(CoefficientError(t))
  {
  }

  // ---------------------------------------------------------------------
  // x^2 - 5x + 6

  lemma QuadraticScans()
    ensures ScanTerm("x^2" + ("-5x" + "+6")) == Some(Term("", "", Caret("2")))
    ensures ScanTerm("-5x" + "+6") == Some(Term("-", "5", Bare("")))
    ensures ScanTerm("+6") == Some(Term("+", "6", NoVariable))
  {
    ScanCaret("x^2", "", "", "2", "-5x" + "+6");
    ScanBare("-5x", "-", "5", "+6");
    ScanNumber("+6", "+", "6", "");
    assert "+6" + "" == "+6";
  }

  lemma QuadraticFound()
    ensures var w, ts := "x^2" + ("-5x" + "+6"), [Term("", "", Caret("2")), Term("-", "5", Bare("")), Term("+", "6", NoVariable)];
      FindAll(ScanTerm, w, 0) == ts && Join(ts) == w
  {
    QuadraticScans();
    ScanTermAnchored();
    FoundThree(ScanTerm, "x^2", "-5x", "+6", Term("", "", Caret("2")), Term("-", "5", Bare("")), Term("+", "6", NoVariable));
  }

  lemma QuadraticUnspaced()
    ensures ' ' !in "x^2" + ("-5x" + "+6")
  {
  }

  lemma QuadraticTerms()
    ensures var w, ts := "x^2" + ("-5x" + "+6"), [Term("", "", Caret("2")), Term("-", "5", Bare("")), Term("+", "6", NoVariable)];
      TermsOf(w) == ts && Join(ts) == RemoveSpaces(w)
  {
    QuadraticFound();
    QuadraticUnspaced();
    Unspaced("x^2" + ("-5x" + "+6"), [Term("", "", Caret("2")), Term("-", "5", Bare("")), Term("+", "6", NoVariable)]);
  }

  lemma QuadraticSquare()
    ensures Degree(Term("", "", Caret("2"))) == Some(2) && Coefficient(Term("", "", Caret("2"))) == Some(1.0)
  {
    ImplicitCoefficient(Term("", "", Caret("2")));
  }

  lemma QuadraticLinear()
    ensures Degree(Term("-", "5", Bare(""))) == Some(1) && Coefficient(Term("-", "5", Bare(""))) == Some(-5.0)
  {
    ExplicitCoefficient(Term("-", "5", Bare("")), 5.0);
  }

  lemma QuadraticConstant()
    ensures Degree(Term("+", "6", NoVariable)) == Some(0) && Coefficient(Term("+", "6", NoVariable)) == Some(6.0)
  {
    ExplicitCoefficient(Term("+", "6", NoVariable), 6.0);
  }

  lemma QuadraticSums()
    ensures MaxOf([2, 1, 0]) == 2
    ensures forall k :: 0 <= k < 3 ==> SumAt([2, 1, 0], [1.0, -5.0, 6.0], k) == [6.0, -5.0, 1.0][k]
  {
    assert [2, 1, 0][..2] == [2, 1];
    assert [2, 1][..1] == [2];
    assert [2][..0] == [];
    assert [1.0, -5.0, 6.0][..2] == [1.0, -5.0];
    assert [1.0, -5.0][..1] == [1.0];
    assert [1.0][..0] == [];
  }

  lemma QuadraticVector()
    ensures var ts := [Term("", "", Caret("2")), Term("-", "5", Bare("")), Term("+", "6", NoVariable)];
      FirstFailing(ts, Degree) == None && FirstFailing(ts, Coefficient) == None && Accumulate(ts) == [6.0, -5.0, 1.0]
  {
    QuadraticSquare();
    QuadraticLinear();
    QuadraticConstant();
    QuadraticSums();
    Vector3(Term("", "", Caret("2")), Term("-", "5", Bare("")), Term("+", "6", NoVariable), 2, 1, 0, 1.0, -5.0, 6.0,
      [6.0, -5.0, 1.0]);
  }

  lemma QuadraticParsed()
    ensures Parse("x^2" + ("-5x" + "+6")) == Ok([6.0, -5.0, 1.0])
  {
    QuadraticTerms();
    QuadraticVector();
    Accepted("x^2" + ("-5x" + "+6"), [Term("", "", Caret("2")), Term("-", "5", Bare("")), Term("+", "6", NoVariable)]);
  }

  /** "x^2 - 5x + 6", and the same without spaces, is x^2 - 5x + 6. */
  lemma ParseQuadratic()
    ensures Parse("x^2" + ("-5x" + "+6")) == Ok([6.0, -5.0, 1.0])
    ensures Parse("x^2 " + ("- 5x " + "+ 6")) == Ok([6.0, -5.0, 1.0])
  {
    QuadraticParsed();
    QuadraticSpaced();
  }

  lemma QuadraticPieces()
    ensures RemoveSpaces("x^2 ") == "x^2" && RemoveSpaces("- 5x ") == "-5x" && RemoveSpaces("+ 6") == "+6"
  {
  }

  lemma QuadraticSpaced()
    ensures Parse("x^2 " + ("- 5x " + "+ 6")) == Parse("x^2" + ("-5x" + "+6"))
  {
    QuadraticPieces();
    Stripped3("x^2 ", "- 5x ", "+ 6", "x^2", "-5x", "+6");
  }

  // ---------------------------------------------------------------------
  // 5

  lemma FiveTerms()
    ensures TermsOf("5") == [Term("", "5", NoVariable)] && Join([Term("", "5", NoVariable)]) == RemoveSpaces("5")
  {
    ScanNumber("5", "", "5", "");
    assert "5" + "" == "5";
    ScanTermAnchored();
    FoundOne(ScanTerm, "5", Term("", "5", NoVariable));
    Unspaced("5", [Term("", "5", NoVariable)]);
  }

  lemma FiveValue()
    ensures Degree(Term("", "5", NoVariable)) == Some(0) && Coefficient(Term("", "5", NoVariable)) == Some(5.0)
  {
    ExplicitCoefficient(Term("", "5", NoVariable), 5.0);
  }

  /** "5" is the constant 5. */
  lemma ParseFive()
    ensures Parse("5") == Ok([5.0])
  {
    FiveTerms();
    FiveValue();
    SingleVector(Term("", "5", NoVariable), 0, 5.0, [5.0]);
    Accepted("5", [Term("", "5", NoVariable)]);
  }

  // ---------------------------------------------------------------------
  // -x

  lemma MinusXTerms()
    ensures TermsOf("-x") == [Term("-", "", Bare(""))] && Join([Term("-", "", Bare(""))]) == RemoveSpaces("-x")
  {
    ScanBare("-x", "-", "", "");
    assert "-x" + "" == "-x";
    ScanTermAnchored();
    FoundOne(ScanTerm, "-x", Term("-", "", Bare("")));
    Unspaced("-x", [Term("-", "", Bare(""))]);
  }

  lemma MinusXValue()
    ensures Degree(Term("-", "", Bare(""))) == Some(1) && Coefficient(Term("-", "", Bare(""))) == Some(-1.0)
  {
    ImplicitCoefficient(Term("-", "", Bare("")));
  }

  /** "-x" has the implicit coefficient -1. */
  lemma ParseMinusX()
    ensures Parse("-x") == Ok([0.0, -1.0])
  {
    MinusXTerms();
    MinusXValue();
    SingleVector(Term("-", "", Bare("")), 1, -1.0, [0.0, -1.0]);
    Accepted("-x", [Term("-", "", Bare(""))]);
  }

  // ---------------------------------------------------------------------
  // 2x + 1

  lemma LinearTerms()
    ensures var w, ts := "2x" + "+1", [Term("", "2", Bare("")), Term("+", "1", NoVariable)];
      TermsOf(w) == ts && Join(ts) == RemoveSpaces(w)
  {
    ScanBare("2x", "", "2", "+1");
    ScanNumber("+1", "+", "1", "");
    assert "+1" + "" == "+1";
    ScanTermAnchored();
    FoundTwo(ScanTerm, "2x", "+1", Term("", "2", Bare("")), Term("+", "1", NoVariable));
    Unspaced("2x" + "+1", [Term("", "2", Bare("")), Term("+", "1", NoVariable)]);
  }

  lemma LinearSlope()
    ensures Degree(Term("", "2", Bare(""))) == Some(1) && Coefficient(Term("", "2", Bare(""))) == Some(2.0)
  {
    ExplicitCoefficient(Term("", "2", Bare("")), 2.0);
  }

  lemma LinearIntercept()
    ensures Degree(Term("+", "1", NoVariable)) == Some(0) && Coefficient(Term("+", "1", NoVariable)) == Some(1.0)
  {
    ExplicitCoefficient(Term("+", "1", NoVariable), 1.0);
  }

  lemma LinearSums()
    ensures MaxOf([1, 0]) == 1
    ensures forall k :: 0 <= k < 2 ==> SumAt([1, 0], [2.0, 1.0], k) == [1.0, 2.0][k]
  {
    assert [1, 0][..1] == [1];
    assert [1][..0] == [];
    assert [2.0, 1.0][..1] == [2.0];
    assert [2.0][..0] == [];
  }

  lemma LinearVector()
    ensures var ts := [Term("", "2", Bare("")), Term("+", "1", NoVariable)];
      FirstFailing(ts, Degree) == None && FirstFailing(ts, Coefficient) == None && Accumulate(ts) == [1.0, 2.0]
  {
    LinearSlope();
    LinearIntercept();
    LinearSums();
    Vector2(Term("", "2", Bare("")), Term("+", "1", NoVariable), 1, 0, 2.0, 1.0,
      [1.0, 2.0]);
  }

  /** "2x+1" is 2x + 1. */
  lemma ParseLinear()
    ensures Parse("2x" + "+1") == Ok([1.0, 2.0])
  {
    LinearTerms();
    LinearVector();
    Accepted("2x" + "+1", [Term("", "2", Bare("")), Term("+", "1", NoVariable)]);
  }


  // ---------------------------------------------------------------------
  // x^3 - 6x^2 + 11x - 6

  lemma CubicScans()
    ensures ScanTerm("x^3" + ("-6x^2" + ("+11x" + "-6"))) == Some(Term("", "", Caret("3")))
    ensures ScanTerm("-6x^2" + ("+11x" + "-6")) == Some(Term("-", "6", Caret("2")))
  {
    ScanCaret("x^3", "", "", "3", "-6x^2" + ("+11x" + "-6"));
    ScanCaret("-6x^2", "-", "6", "2", "+11x" + "-6");
  }

  lemma CubicScansTail()
    ensures ScanTerm("+11x" + "-6") == Some(Term("+", "11", Bare("")))
    ensures ScanTerm("-6") == Some(Term("-", "6", NoVariable))
  {
    ScanBare("+11x", "+", "11", "-6");
    ScanNumber("-6", "-", "6", "");
    assert "-6" + "" == "-6";
  }

  lemma CubicFound()
    ensures var w := "x^3" + ("-6x^2" + ("+11x" + "-6"));
      var ts := [Term("", "", Caret("3")), Term("-", "6", Caret("2")), Term("+", "11", Bare("")), Term("-", "6", NoVariable)];
      FindAll(ScanTerm, w, 0) == ts && Join(ts) == w
  {
    CubicScans();
    CubicScansTail();
    ScanTermAnchored();
    FoundFour(ScanTerm, "x^3", "-6x^2", "+11x", "-6",
      Term("", "", Caret("3")), Term("-", "6", Caret("2")), Term("+", "11", Bare("")), Term("-", "6", NoVariable));
  }

  lemma CubicUnspaced()
    ensures ' ' !in "x^3" + ("-6x^2" + ("+11x" + "-6"))
  {
  }

  lemma CubicTerms()
    ensures var w := "x^3" + ("-6x^2" + ("+11x" + "-6"));
      var ts := [Term("", "", Caret("3")), Term("-", "6", Caret("2")), Term("+", "11", Bare("")), Term("-", "6", NoVariable)];
      TermsOf(w) == ts && Join(ts) == RemoveSpaces(w)
  {
    CubicFound();
    CubicUnspaced();
    Unspaced("x^3" + ("-6x^2" + ("+11x" + "-6")),
      [Term("", "", Caret("3")), Term("-", "6", Caret("2")), Term("+", "11", Bare("")), Term("-", "6", NoVariable)]);
  }

  lemma CubicCube()
    ensures Degree(Term("", "", Caret("3"))) == Some(3) && Coefficient(Term("", "", Caret("3"))) == Some(1.0)
  {
    ImplicitCoefficient(Term("", "", Caret("3")));
  }

  lemma CubicSquare()
    ensures Degree(Term("-", "6", Caret("2"))) == Some(2) && Coefficient(Term("-", "6", Caret("2"))) == Some(-6.0)
  {
    ExplicitCoefficient(Term("-", "6", Caret("2")), 6.0);
  }

  lemma CubicLinear()
    ensures Degree(Term("+", "11", Bare(""))) == Some(1) && Coefficient(Term("+", "11", Bare(""))) == Some(11.0)
  {
    ExplicitCoefficient(Term("+", "11", Bare("")), 11.0);
  }

  lemma CubicConstant()
    ensures Degree(Term("-", "6", NoVariable)) == Some(0) && Coefficient(Term("-", "6", NoVariable)) == Some(-6.0)
  {
    ExplicitCoefficient(Term("-", "6", NoVariable), 6.0);
  }

  lemma CubicSums()
    ensures MaxOf([3, 2, 1, 0]) == 3
    ensures forall k :: 0 <= k < 4 ==> SumAt([3, 2, 1, 0], [1.0, -6.0, 11.0, -6.0], k) == [-6.0, 11.0, -6.0, 1.0][k]
  {
    assert [3, 2, 1, 0][..3] == [3, 2, 1];
    assert [3, 2, 1][..2] == [3, 2];
    assert [3, 2][..1] == [3];
    assert [3][..0] == [];
    assert [1.0, -6.0, 11.0, -6.0][..3] == [1.0, -6.0, 11.0];
    assert [1.0, -6.0, 11.0][..2] == [1.0, -6.0];
    assert [1.0, -6.0][..1] == [1.0];
    assert [1.0][..0] == [];
  }

  lemma CubicVector()
    ensures var ts := [Term("", "", Caret("3")), Term("-", "6", Caret("2")), Term("+", "11", Bare("")), Term("-", "6", NoVariable)];
      FirstFailing(ts, Degree) == None && FirstFailing(ts, Coefficient) == None && Accumulate(ts) == [-6.0, 11.0, -6.0, 1.0]
  {
    CubicCube();
    CubicSquare();
    CubicLinear();
    CubicConstant();
    CubicSums();
    Vector4(Term("", "", Caret("3")), Term("-", "6", Caret("2")), Term("+", "11", Bare("")), Term("-", "6", NoVariable), 3, 2, 1, 0, 1.0, -6.0, 11.0, -6.0,
      [-6.0, 11.0, -6.0, 1.0]);
  }

  lemma CubicParsed()
    ensures Parse("x^3" + ("-6x^2" + ("+11x" + "-6"))) == Ok([-6.0, 11.0, -6.0, 1.0])
  {
    CubicTerms();
    CubicVector();
    Accepted("x^3" + ("-6x^2" + ("+11x" + "-6")), [Term("", "", Caret("3")), Term("-", "6", Caret("2")), Term("+", "11", Bare("")), Term("-", "6", NoVariable)]);
  }

  /** "x^3 - 6x^2 + 11x - 6", and the same without spaces, is x^3 - 6x^2 + 11x - 6. */
  lemma ParseCubic()
    ensures Parse("x^3" + ("-6x^2" + ("+11x" + "-6"))) == Ok([-6.0, 11.0, -6.0, 1.0])
    ensures Parse("x^3 " + ("- 6x^2 " + ("+ 11x " + "- 6"))) == Ok([-6.0, 11.0, -6.0, 1.0])
  {
    CubicParsed();
    CubicSpaced();
  }

  lemma CubicPieces()
    ensures RemoveSpaces("x^3 ") == "x^3" && RemoveSpaces("- 6x^2 ") == "-6x^2"
  {
  }

  lemma CubicTail()
    ensures RemoveSpaces("+ 11x ") == "+11x" && RemoveSpaces("- 6") == "-6"
  {
  }

  lemma CubicSpaced()
    ensures Parse("x^3 " + ("- 6x^2 " + ("+ 11x " + "- 6"))) == Parse("x^3" + ("-6x^2" + ("+11x" + "-6")))
  {
    CubicPieces();
    CubicTail();
    Stripped4("x^3 ", "- 6x^2 ", "+ 11x ", "- 6", "x^3", "-6x^2", "+11x", "-6");
  }

  // ---------------------------------------------------------------------
  // Rejected inputs.

  /** The empty input has no terms. */
  lemma ParseEmpty()
    ensures Parse("") == Err(NoTerms)
  {
    ScanTermAnchored();
    FindAllEmpty(ScanTerm, "", 0);
  }

  lemma LettersUnscanned()
    ensures ScanTerm("abc").None? && ScanTerm("bc").None? && ScanTerm("c").None?
  {
  }

  lemma LettersFound()
    ensures FindAll(ScanTerm, "abc", 0) == []
  {
    ScanTermAnchored();
    LettersUnscanned();
    assert ['a'] + "bc" == "abc" && ['b'] + "c" == "bc" && ['c'] + "" == "c";
    FindAllSkipFirst(ScanTerm, 'a', "bc");
    FindAllSkipFirst(ScanTerm, 'b', "c");
    FindAllSkipFirst(ScanTerm, 'c', "");
    FindAllEmpty(ScanTerm, "", 0);
  }

  /** "abc" has no term in it. */
  lemma ParseLetters()
    ensures Parse("abc") == Err(NoTerms)
  {
    LettersFound();
    SpaceFree("abc");
  }

  lemma CaretOnlyScans()
    ensures ScanTerm("x^") == Some(Term("", "", Caret("")))
  {
    ScanCaret("x^", "", "", "", "");
    assert "x^" + "" == "x^";
  }

  lemma CaretOnlyTerms()
    ensures TermsOf("x^") == [Term("", "", Caret(""))] && Join([Term("", "", Caret(""))]) == RemoveSpaces("x^")
  {
    CaretOnlyScans();
    ScanTermAnchored();
    FoundOne(ScanTerm, "x^", Term("", "", Caret("")));
    Unspaced("x^", [Term("", "", Caret(""))]);
  }

  lemma CaretOnlyFails()
    ensures FirstFailing([Term("", "", Caret(""))], Degree) == Some(Term("", "", Caret("")))
    ensures Lexeme(Term("", "", Caret(""))) == "x^"
  {
    assert Atoi("") == None;
  }

  /** "x^" is a power without an exponent: Atoi rejects the empty exponent. */
  lemma ParseCaretOnly()
    ensures Parse("x^") == Err(InvalidDegree("x^"))
  {
    CaretOnlyTerms();
    CaretOnlyFails();
    DegreeRejected("x^", [Term("", "", Caret(""))], Term("", "", Caret("")));
  }

  lemma CaretUnscanned()
    ensures ScanTerm(['^'] + "2").None? && ['^'] + "2" == "^2"
  {
  }

  lemma TwoFound()
    ensures FindAll(ScanTerm, "2", 0) == [Term("", "2", NoVariable)]
  {
    ScanTermAnchored();
    ScanNumber("2", "", "2", "");
    assert "2" + "" == "2";
    FoundOne(ScanTerm, "2", Term("", "2", NoVariable));
  }

  lemma CaretFirstFound()
    ensures FindAll(ScanTerm, "^2", 0) == [Term("", "2", NoVariable)]
  {
    ScanTermAnchored();
    TwoFound();
    CaretUnscanned();
    FindAllSkipFirst(ScanTerm, '^', "2");
  }

  lemma CaretFirstTerms()
    ensures TermsOf("^2") == [Term("", "2", NoVariable)]
  {
    CaretFirstFound();
    SpaceFree("^2");
  }

  /** "^2": the pattern skips the '^', so the one term found does not spell the input. */
  lemma ParseCaretFirst()
    ensures Parse("^2") == Err(UnmatchedText)
  {
    CaretFirstTerms();
    RemoveSpacesKeeps("^2");
    assert Join([Term("", "2", NoVariable)]) == "2";
    Unmatched("^2", [Term("", "2", NoVariable)]);
  }

  // ---------------------------------------------------------------------
  // Inputs that show how the passes read juxtaposed terms.

  lemma TwiceXTerms()
    ensures TermsOf("x" + "x") == [Term("", "", Bare("")), Term("", "", Bare(""))]
    ensures Join([Term("", "", Bare("")), Term("", "", Bare(""))]) == RemoveSpaces("x" + "x")
  {
    ScanBare("x", "", "", "x");
    ScanBare("x", "", "", "");
    assert "x" + "" == "x";
    ScanTermAnchored();
    FoundTwo(ScanTerm, "x", "x", Term("", "", Bare("")), Term("", "", Bare("")));
    Unspaced("x" + "x", [Term("", "", Bare("")), Term("", "", Bare(""))]);
  }

  lemma TwiceXValue()
    ensures Degree(Term("", "", Bare(""))) == Some(1) && Coefficient(Term("", "", Bare(""))) == Some(1.0)
  {
    ImplicitCoefficient(Term("", "", Bare("")));
  }

  lemma TwiceXSums()
    ensures MaxOf([1, 1]) == 1
    ensures forall k :: 0 <= k < 2 ==> SumAt([1, 1], [1.0, 1.0], k) == [0.0, 2.0][k]
  {
    assert [1, 1][..1] == [1] && [1][..0] == [];
    assert [1.0, 1.0][..1] == [1.0] && [1.0][..0] == [];
  }

  lemma TwiceXVector()
    ensures var ts := [Term("", "", Bare("")), Term("", "", Bare(""))];
      FirstFailing(ts, Degree) == None && FirstFailing(ts, Coefficient) == None && Accumulate(ts) == [0.0, 2.0]
  {
    TwiceXValue();
    TwiceXSums();
    Vector2(Term("", "", Bare("")), Term("", "", Bare("")), 1, 1, 1.0, 1.0,
      [0.0, 2.0]);
  }

  /** "xx" is read as two terms x, which add up to 2x. */
  lemma ParseTwiceX()
    ensures Parse("x" + "x") == Ok([0.0, 2.0])
  {
    TwiceXTerms();
    TwiceXVector();
    Accepted("x" + "x", [Term("", "", Bare("")), Term("", "", Bare(""))]);
  }

  lemma XTwoScans()
    ensures ScanTerm("x2") == Some(Term("", "", Bare("2")))
  {
    var s := "x2";
    assert s[0..0] == "" && s[1..2] == "2" && s[..0] == "";
    DigitsEndAt(s, 0, 0);
    DigitsEndAt(s, 1, 2);
  }

  lemma XTwoTerms()
    ensures TermsOf("x2") == [Term("", "", Bare("2"))] && Join([Term("", "", Bare("2"))]) == RemoveSpaces("x2")
  {
    XTwoScans();
    assert "x2" + "" == "x2";
    ScanTermAnchored();
    FoundOne(ScanTerm, "x2", Term("", "", Bare("2")));
    Unspaced("x2", [Term("", "", Bare("2"))]);
  }

  lemma XTwoFails()
    ensures var t := Term("", "", Bare("2"));
      FirstFailing([t], Degree) == None && FirstFailing([t], Coefficient) == Some(t)
  {
    TrailingDigitsRejected(Term("", "", Bare("2")));
  }

  lemma XTwoError()
    ensures CoefficientError(Term("", "", Bare("2"))) == InvalidCoefficient("x2")
  {
    assert Lexeme(Term("", "", Bare("2"))) == "x2";
  }

  /** "x2" gets through the first pass with degree 1, then its coefficient is rejected. */
  lemma ParseXTwo()
    ensures Parse("x2") == Err(InvalidCoefficient("x2"))
  {
    XTwoTerms();
    XTwoFails();
    XTwoError();
    CoefficientRejected("x2", [Term("", "", Bare("2"))], Term("", "", Bare("2")));
  }

}
