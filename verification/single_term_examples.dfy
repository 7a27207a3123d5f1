/**
 * ParsePolynomial on the single-term inputs of its unit tests.
 */
module SingleTermExamples {
  import opened Results
  import opened Text
  import opened Terms
  import opened Parser
  import opened ParserExamples

  lemma MinusThreeTerms()
    ensures TermsOf("-3") == [Term("-", "3", NoVariable)] && Join([Term("-", "3", NoVariable)]) == RemoveSpaces("-3")
  {
    ScanNumber("-3", "-", "3", "");
    assert "-3" + "" == "-3";
    ScanTermAnchored();
    FoundOne(ScanTerm, "-3", Term("-", "3", NoVariable));
    Unspaced("-3", [Term("-", "3", NoVariable)]);
  }

  lemma MinusThreeValue()
    ensures Degree(Term("-", "3", NoVariable)) == Some(0) && Coefficient(Term("-", "3", NoVariable)) == Some(-3.0)
  {
    ExplicitCoefficient(Term("-", "3", NoVariable), 3.0);
  }

  /** "-3" is the constant -3. */
  lemma ParseMinusThree()
    ensures Parse("-3") == Ok([-3.0])
  {
    MinusThreeTerms();
    MinusThreeValue();
    SingleVector(Term("-", "3", NoVariable), 0, -3.0, [-3.0]);
    Accepted("-3", [Term("-", "3", NoVariable)]);
  }

  lemma XTerms()
    ensures TermsOf("x") == [Term("", "", Bare(""))] && Join([Term("", "", Bare(""))]) == RemoveSpaces("x")
  {
    ScanBare("x", "", "", "");
    assert "x" + "" == "x";
    ScanTermAnchored();
    FoundOne(ScanTerm, "x", Term("", "", Bare("")));
    Unspaced("x", [Term("", "", Bare(""))]);
  }

  /** "x" has the implicit coefficient 1. */
  lemma ParseX()
    ensures Parse("x") == Ok([0.0, 1.0])
  {
    XTerms();
    TwiceXValue();
    SingleVector(Term("", "", Bare("")), 1, 1.0, [0.0, 1.0]);
    Accepted("x", [Term("", "", Bare(""))]);
  }

  lemma TwoXTerms()
    ensures TermsOf("2x") == [Term("", "2", Bare(""))] && Join([Term("", "2", Bare(""))]) == RemoveSpaces("2x")
  {
    ScanBare("2x", "", "2", "");
    assert "2x" + "" == "2x";
    ScanTermAnchored();
    FoundOne(ScanTerm, "2x", Term("", "2", Bare("")));
    Unspaced("2x", [Term("", "2", Bare(""))]);
  }

  /** "2x" is 2x. */
  lemma ParseTwoX()
    ensures Parse("2x") == Ok([0.0, 2.0])
  {
    TwoXTerms();
    LinearSlope();
    SingleVector(Term("", "2", Bare("")), 1, 2.0, [0.0, 2.0]);
    Accepted("2x", [Term("", "2", Bare(""))]);
  }

  lemma SquareTerms()
    ensures TermsOf("x^2") == [Term("", "", Caret("2"))] && Join([Term("", "", Caret("2"))]) == RemoveSpaces("x^2")
  {
    ScanCaret("x^2", "", "", "2", "");
    assert "x^2" + "" == "x^2";
    ScanTermAnchored();
    FoundOne(ScanTerm, "x^2", Term("", "", Caret("2")));
    Unspaced("x^2", [Term("", "", Caret("2"))]);
  }

  /** "x^2" has two zero slots below the square. */
  lemma ParseSquare()
    ensures Parse("x^2") == Ok([0.0, 0.0, 1.0])
  {
    SquareTerms();
    QuadraticSquare();
    SingleVector(Term("", "", Caret("2")), 2, 1.0, [0.0, 0.0, 1.0]);
    Accepted("x^2", [Term("", "", Caret("2"))]);
  }

  lemma ScaledSquareTerms()
    ensures TermsOf("-3x^2") == [Term("-", "3", Caret("2"))] && Join([Term("-", "3", Caret("2"))]) == RemoveSpaces("-3x^2")
  {
    ScanCaret("-3x^2", "-", "3", "2", "");
    assert "-3x^2" + "" == "-3x^2";
    ScanTermAnchored();
    FoundOne(ScanTerm, "-3x^2", Term("-", "3", Caret("2")));
    Unspaced("-3x^2", [Term("-", "3", Caret("2"))]);
  }

  lemma ScaledSquareValue()
    ensures Degree(Term("-", "3", Caret("2"))) == Some(2) && Coefficient(Term("-", "3", Caret("2"))) == Some(-3.0)
  {
    ExplicitCoefficient(Term("-", "3", Caret("2")), 3.0);
  }

  /** "-3x^2" is -3 x^2. */
  lemma ParseScaledSquare()
    ensures Parse("-3x^2") == Ok([0.0, 0.0, -3.0])
  {
    ScaledSquareTerms();
    ScaledSquareValue();
    SingleVector(Term("-", "3", Caret("2")), 2, -3.0, [0.0, 0.0, -3.0]);
    Accepted("-3x^2", [Term("-", "3", Caret("2"))]);
  }
}
