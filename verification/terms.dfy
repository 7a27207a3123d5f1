/**
 * The term pattern of ParsePolynomial,
 *     ([+-]?\d*\.?\d*x\^?\d*|[-+]?\d*\.?\d+)
 * and `FindAllString` over it.  ScanTerm reads the match that starts at the
 * beginning of a string (RE2's leftmost-first choice); FindAll collects the
 * successive non-overlapping matches, skipping characters where none starts.
 */
module Terms {
  import opened Results
  import opened Text

  /** What follows the mantissa of a term. */
  datatype Power =
    | NoVariable               // a constant, second alternative of the pattern
    | Bare(trailing: string)   // `x` followed by `\d*` (the `\^?` matched nothing)
    | Caret(exponent: string)  // `x^` followed by `\d*`

  /** One matched term: `sign` is "", "+" or "-"; `mantissa` is `\d*\.?\d*`. */
  datatype Term = Term(sign: string, mantissa: string, power: Power)

  /** The matched text of a term, as FindAllString returns it. */
  function Lexeme(t: Term): string {
    t.sign + t.mantissa +
    match t.power
    case NoVariable => ""
    case Bare(d) => "x" + d
    case Caret(e) => "x^" + e
  }

  // ---------------------------------------------------------------------
  // The languages of the two alternatives, written as regular sets.

  /** `\d*\.?\d*`: digits and at most one dot. */
  ghost predicate Mantissa(m: string) {
    && (forall i :: 0 <= i < |m| ==> IsDigit(m[i]) || m[i] == '.')
    && (forall i, j :: 0 <= i < j < |m| && m[i] == '.' ==> m[j] != '.')
  }

  /** `[+-]?\d*\.?\d*` */
  ghost predicate SignedMantissa(p: string) {
    Mantissa(p) || (|p| > 0 && IsSign(p[0]) && Mantissa(p[1..]))
  }

  /** Words of the first alternative, `[+-]?\d*\.?\d*x\^?\d*`. */
  ghost predicate VariableWord(w: string) {
    exists i :: 0 <= i < |w| && w[i] == 'x' && SignedMantissa(w[..i]) &&
      (AllDigits(w[i + 1..]) || (i + 1 < |w| && w[i + 1] == '^' && AllDigits(w[i + 2..])))
  }

  /** Words of the second alternative, `[-+]?\d*\.?\d+`. */
  ghost predicate NumberWord(w: string) {
    |w| > 0 && IsDigit(w[|w| - 1]) && SignedMantissa(w)
  }

  /** The shape every scanned term has. */
  ghost predicate WellFormed(t: Term) {
    && (t.sign == "" || t.sign == "+" || t.sign == "-")
    && Mantissa(t.mantissa)
    && match t.power
       case NoVariable => t.mantissa != [] && IsDigit(t.mantissa[|t.mantissa| - 1])
       case Bare(d) => AllDigits(d)
       case Caret(e) => AllDigits(e)
  }

  // ---------------------------------------------------------------------
  // Matching at the start of a string.

  /** End of the maximal run of digits starting at `i`. */
  function DigitsEnd(s: string, i: nat): (j: nat)
    requires i <= |s|
    ensures i <= j <= |s|
    decreases |s| - i
  {
    if i < |s| && IsDigit(s[i]) then DigitsEnd(s, i + 1) else i
  }

  /** DigitsEnd stops at the first non-digit. */
  lemma {:induction false} DigitsRun(s: string, i: nat)
    requires i <= |s|
    ensures forall k :: i <= k < DigitsEnd(s, i) ==> IsDigit(s[k])
    ensures DigitsEnd(s, i) == |s| || !IsDigit(s[DigitsEnd(s, i)])
    decreases |s| - i
  {
    if i < |s| && IsDigit(s[i]) {
      DigitsRun(s, i + 1);
    }
  }

  /** End of the optional sign. */
  function SignEnd(s: string): nat {
    if |s| > 0 && IsSign(s[0]) then 1 else 0
  }

  /** End of the greedy `\d*` after the sign. */
  function IntegerEnd(s: string): nat {
    DigitsEnd(s, SignEnd(s))
  }

  /** End of the greedy `\d*\.?\d*` after the sign. */
  function MantissaEnd(s: string): (c: nat)
    ensures IntegerEnd(s) <= c <= |s|
  {
    var b := IntegerEnd(s);
    if b < |s| && s[b] == '.' then DigitsEnd(s, b + 1) else b
  }

  /** `t` is matched by a non-empty prefix of `s`. */
  ghost predicate StartsWith(s: string, t: Term) {
    0 < |Lexeme(t)| <= |s| && Lexeme(t) == s[..|Lexeme(t)|]
  }

  /** A run of digits read off `s` is a digit string. */
  lemma DigitsSlice(s: string, i: nat)
    requires i <= |s|
    ensures AllDigits(s[i..DigitsEnd(s, i)])
  {
    DigitsRun(s, i);
  }

  /** A slice splits at any point inside it. */
  lemma SplitAt(s: string, i: nat, j: nat, k: nat)
    requires i <= j <= k <= |s|
    ensures s[i..k] == s[i..j] + s[j..k]
  {
  }

  /** The first alternative, `[+-]?\d*\.?\d*x\^?\d*`, matched greedily at the start of `s`. */
  function MatchVariable(s: string): (r: Option<Term>)
    ensures r.Some? ==> !r.value.power.NoVariable? && StartsWith(s, r.value)
  {
    var a, c := SignEnd(s), MantissaEnd(s);
    if c < |s| && s[c] == 'x' then
      var caret := c + 1 < |s| && s[c + 1] == '^';
      var d := if caret then c + 2 else c + 1;
      var e := DigitsEnd(s, d);
      var t := Term(s[..a], s[a..c], if caret then Caret(s[d..e]) else Bare(s[d..e]));
      SplitAt(s, 0, a, c);
      SplitAt(s, 0, c, e);
      SplitAt(s, c, d, e);
      assert s[c..d] == if caret then "x^" else "x";
      Some(t)
    else
      None
  }

  /** The second alternative, `[-+]?\d*\.?\d+`, matched at the start of `s`. */
  function MatchNumber(s: string): (r: Option<Term>)
    ensures r.Some? ==> r.value.power.NoVariable? && StartsWith(s, r.value)
  {
    var a, b, c := SignEnd(s), IntegerEnd(s), MantissaEnd(s);
    var e := if b < |s| && s[b] == '.' && c > b + 1 then c else b;
    if e > a then
      SplitAt(s, 0, a, e);
      Some(Term(s[..a], s[a..e], NoVariable))
    else
      None
  }

  /** The first alternative produces well-formed terms. */
  lemma MatchVariableWellFormed(s: string)
    ensures MatchVariable(s).Some? ==> WellFormed(MatchVariable(s).value)
  {
    if MatchVariable(s).Some? {
      var c := MantissaEnd(s);
      MantissaShape(s);
      DigitsSlice(s, if c + 1 < |s| && s[c + 1] == '^' then c + 2 else c + 1);
    }
  }

  /** The second alternative produces well-formed terms. */
  lemma MatchNumberWellFormed(s: string)
    ensures MatchNumber(s).Some? ==> WellFormed(MatchNumber(s).value)
  {
    if MatchNumber(s).Some? {
      var n := |Lexeme(MatchNumber(s).value)|;
      MantissaChars(s);
      SignedMantissaPrefix(s, n);
      MantissaShape(s);
      assert s[SignEnd(s)..n][n - SignEnd(s) - 1] == s[n - 1];
    }
  }

  /**
   * The leftmost-first match of the term pattern at the start of `s`, or None
   * when no match starts there: the first alternative is tried first.
   */
  function ScanTerm(s: string): (r: Option<Term>)
    ensures r.Some? ==> StartsWith(s, r.value)
  {
    match MatchVariable(s)
    case Some(t) => Some(t)
    case None => MatchNumber(s)
  }

  /** Over a run of digits to the end, DigitsEnd reaches the end. */
  lemma {:induction false} DigitsToEnd(s: string, i: nat)
    requires i <= |s| && forall k :: i <= k < |s| ==> IsDigit(s[k])
    ensures DigitsEnd(s, i) == |s|
    decreases |s| - i
  {
    if i < |s| {
      DigitsToEnd(s, i + 1);
    }
  }

  /** A string of digits is matched whole, as one constant term. */
  lemma ScanDigits(m: string)
    requires m != [] && AllDigits(m)
    ensures ScanTerm(m) == Some(Term("", m, NoVariable))
  {
    DigitsToEnd(m, 0);
    assert IntegerEnd(m) == |m|;
    assert m[..0] == "" && m[0..|m|] == m;
  }

  /** The characters between the sign and the greedy mantissa end: digits, with one dot at most, at IntegerEnd. */
  lemma MantissaChars(s: string)
    ensures SignEnd(s) <= IntegerEnd(s) <= MantissaEnd(s) <= |s|
    ensures forall k :: SignEnd(s) <= k < MantissaEnd(s) && k != IntegerEnd(s) ==> IsDigit(s[k])
    ensures IntegerEnd(s) < MantissaEnd(s) <==> IntegerEnd(s) < |s| && s[IntegerEnd(s)] == '.'
    ensures IntegerEnd(s) == |s| || !IsDigit(s[IntegerEnd(s)])
    ensures MantissaEnd(s) == |s| || !IsDigit(s[MantissaEnd(s)])
  {
    DigitsRun(s, SignEnd(s));
    if IntegerEnd(s) < |s| && s[IntegerEnd(s)] == '.' {
      DigitsRun(s, IntegerEnd(s) + 1);
    }
  }

  /** Every prefix of `s` that stops inside the greedy mantissa is a signed mantissa. */
  lemma SignedMantissaPrefix(s: string, e: nat)
    requires SignEnd(s) <= e <= MantissaEnd(s)
    ensures Mantissa(s[SignEnd(s)..e])
    ensures SignedMantissa(s[..e])
  {
    var a, b := SignEnd(s), IntegerEnd(s);
    MantissaChars(s);
    var m := s[a..e];
    forall i | 0 <= i < |m| ensures IsDigit(m[i]) || m[i] == '.' {
      assert m[i] == s[a + i];
    }
    forall i, j | 0 <= i < j < |m| && m[i] == '.' ensures m[j] != '.' {
      assert m[i] == s[a + i] && m[j] == s[a + j];
    }
    if a == 1 {
      assert s[..e][1..] == m;
    } else {
      assert s[..e] == m;
    }
  }

  /** The greedy sign and mantissa are well formed. */
  lemma MantissaShape(s: string)
    ensures SignEnd(s) <= IntegerEnd(s)
    ensures s[..SignEnd(s)] == "" || s[..SignEnd(s)] == "+" || s[..SignEnd(s)] == "-"
    ensures Mantissa(s[SignEnd(s)..MantissaEnd(s)])
    ensures SignedMantissa(s[..MantissaEnd(s)])
  {
    SignedMantissaPrefix(s, MantissaEnd(s));
  }

  /** The characters after the sign of a signed-mantissa prefix of `s`. */
  lemma SignedMantissaBody(s: string, i: nat)
    requires 0 < i <= |s| && SignedMantissa(s[..i])
    ensures SignEnd(s) <= i
    ensures forall k :: SignEnd(s) <= k < i ==> IsDigit(s[k]) || s[k] == '.'
    ensures forall k, l :: SignEnd(s) <= k < l < i && s[k] == '.' ==> s[l] != '.'
  {
    var a, w := SignEnd(s), s[..i];
    if a == 1 {
      assert !(IsDigit(w[0]) || w[0] == '.');
      assert w[1..] == s[1..i];
    } else {
      assert !IsSign(w[0]);
    }
  }

  /** A prefix that is a signed mantissa ends no later than the greedy mantissa. */
  lemma SignedMantissaBound(s: string, i: nat)
    requires i <= |s| && SignedMantissa(s[..i])
    ensures i <= MantissaEnd(s)
  {
    if i > 0 {
      SignedMantissaBody(s, i);
      MantissaChars(s);
    }
  }

  /** An 'x' right after a signed-mantissa prefix of `s` sits at MantissaEnd(s). */
  lemma XPosition(s: string, i: nat)
    requires i < |s| && s[i] == 'x' && SignedMantissa(s[..i])
    ensures i == MantissaEnd(s)
  {
    SignedMantissaBound(s, i);
    MantissaChars(s);
  }

  /** A run of digits starting at `d` ends no later than DigitsEnd(s, d). */
  lemma DigitsPrefixBound(s: string, d: nat, j: nat)
    requires d <= j <= |s| && AllDigits(s[d..j])
    ensures j <= DigitsEnd(s, d)
  {
    DigitsRun(s, d);
  }

  /**
   * A word of the first alternative that starts `s` has its 'x' at
   * MantissaEnd(s), followed by digits, or by '^' and digits.
   */
  lemma VariableWordAt(s: string, j: nat)
    requires j <= |s| && VariableWord(s[..j])
    ensures MantissaEnd(s) < j && s[MantissaEnd(s)] == 'x'
    ensures var c := MantissaEnd(s);
      if c + 1 < j && s[c + 1] == '^' then AllDigits(s[c + 2..j]) else AllDigits(s[c + 1..j])
  {
    var w := s[..j];
    var i :| 0 <= i < |w| && w[i] == 'x' && SignedMantissa(w[..i]) &&
      (AllDigits(w[i + 1..]) || (i + 1 < |w| && w[i + 1] == '^' && AllDigits(w[i + 2..])));
    assert i == MantissaEnd(s) by {
      assert w[..i] == s[..i];
      XPosition(s, i);
    }
    if i + 1 < j && s[i + 1] == '^' {
      assert AllDigits(s[i + 2..j]) by {
        assert w[i + 1..][0] == '^';
        assert w[i + 2..] == s[i + 2..j];
      }
    } else {
      assert AllDigits(s[i + 1..j]) by {
        assert w[i + 1..] == s[i + 1..j];
      }
    }
  }

  /** The match of the first alternative is a word of it. */
  lemma MatchVariableIsWord(s: string)
    requires MatchVariable(s).Some?
    ensures VariableWord(s[..|Lexeme(MatchVariable(s).value)|])
  {
    var c := MantissaEnd(s);
    var n := |Lexeme(MatchVariable(s).value)|;
    var caret := c + 1 < |s| && s[c + 1] == '^';
    var d := if caret then c + 2 else c + 1;
    assert n == DigitsEnd(s, d) && c < d <= n <= |s|;
    var w := s[..n];
    assert SignedMantissa(w[..c]) by {
      MantissaShape(s);
      assert w[..c] == s[..c];
    }
    assert AllDigits(w[d..]) by {
      DigitsSlice(s, d);
      assert w[d..] == s[d..n];
    }
    assert w[c] == 'x' && (caret ==> w[c + 1] == '^');
    VariableWordFrom(w, c, d);
  }

  /** An 'x' after a signed mantissa, then digits or '^' and digits, is a word of the first alternative. */
  lemma VariableWordFrom(w: string, c: nat, d: nat)
    requires c < d <= |w| && w[c] == 'x' && SignedMantissa(w[..c]) && AllDigits(w[d..])
    requires d == c + 1 || (d == c + 2 && w[c + 1] == '^')
    ensures VariableWord(w)
  {
  }

  /** No word of the first alternative that starts `s` is longer than its match. */
  lemma MatchVariableMaximal(s: string, j: nat)
    requires MatchVariable(s).Some? && |Lexeme(MatchVariable(s).value)| < j <= |s|
    ensures !VariableWord(s[..j])
  {
    var c := MantissaEnd(s);
    if VariableWord(s[..j]) {
      VariableWordAt(s, j);
      DigitsPrefixBound(s, if s[c + 1] == '^' then c + 2 else c + 1, j);
    }
  }

  /** Without a match of the first alternative no word of it starts `s`. */
  lemma NoVariableWord(s: string, j: nat)
    requires MatchVariable(s).None? && j <= |s|
    ensures !VariableWord(s[..j])
  {
    if VariableWord(s[..j]) {
      VariableWordAt(s, j);
    }
  }

  /**
   * MatchVariable returns the longest word of the first alternative that
   * starts `s`, and None exactly when there is none.
   */
  lemma MatchVariableLongest(s: string)
    ensures MatchVariable(s).Some? ==>
      && VariableWord(s[..|Lexeme(MatchVariable(s).value)|])
      && forall j :: |Lexeme(MatchVariable(s).value)| < j <= |s| ==> !VariableWord(s[..j])
    ensures MatchVariable(s).None? ==> forall j :: 0 <= j <= |s| ==> !VariableWord(s[..j])
  {
    if MatchVariable(s).Some? {
      MatchVariableIsWord(s);
      forall j | |Lexeme(MatchVariable(s).value)| < j <= |s| ensures !VariableWord(s[..j]) {
        MatchVariableMaximal(s, j);
      }
    } else {
      forall j | 0 <= j <= |s| ensures !VariableWord(s[..j]) {
        NoVariableWord(s, j);
      }
    }
  }

  /** Every word of the second alternative that starts `s` is at most as long as MatchNumber's match. */
  lemma NumberWordBound(s: string, j: nat)
    requires j <= |s| && NumberWord(s[..j])
    ensures MatchNumber(s).Some? && j <= |Lexeme(MatchNumber(s).value)|
  {
    assert s[..j][..j] == s[..j];
    SignedMantissaBound(s, j);
    SignedMantissaBody(s, j);
    assert s[..j][j - 1] == s[j - 1];
  }

  /** The match of the second alternative is a word of it. */
  lemma MatchNumberIsWord(s: string)
    requires MatchNumber(s).Some?
    ensures NumberWord(s[..|Lexeme(MatchNumber(s).value)|])
  {
    var n := |Lexeme(MatchNumber(s).value)|;
    MantissaChars(s);
    SignedMantissaPrefix(s, n);
    assert s[..n][n - 1] == s[n - 1];
  }

  /**
   * MatchNumber returns the longest word of the second alternative that
   * starts `s`, and None exactly when there is none.
   */
  lemma MatchNumberLongest(s: string)
    ensures MatchNumber(s).Some? ==>
      && NumberWord(s[..|Lexeme(MatchNumber(s).value)|])
      && forall j :: |Lexeme(MatchNumber(s).value)| < j <= |s| ==> !NumberWord(s[..j])
    ensures MatchNumber(s).None? ==> forall j :: 0 <= j <= |s| ==> !NumberWord(s[..j])
  {
    forall j | 0 <= j <= |s| && NumberWord(s[..j])
      ensures MatchNumber(s).Some? && j <= |Lexeme(MatchNumber(s).value)|
    {
      NumberWordBound(s, j);
    }
    if MatchNumber(s).Some? {
      MatchNumberIsWord(s);
    }
  }

  /**
   * ScanTerm returns the match a leftmost-first engine returns: the longest
   * word of the first alternative that starts `s`, if there is one, and
   * otherwise the longest word of the second; None exactly when no word of
   * either alternative starts `s`.
   */
  lemma ScanTermLeftmostFirst(s: string)
    ensures match ScanTerm(s)
      case Some(t) =>
        var n := |Lexeme(t)|;
        if t.power.NoVariable? then
          && (forall j :: 0 <= j <= |s| ==> !VariableWord(s[..j]))
          && NumberWord(s[..n])
          && (forall j :: n < j <= |s| ==> !NumberWord(s[..j]))
        else
          && VariableWord(s[..n])
          && (forall j :: n < j <= |s| ==> !VariableWord(s[..j]))
      case None =>
        forall j :: 0 <= j <= |s| ==> !VariableWord(s[..j]) && !NumberWord(s[..j])
  {
    MatchVariableLongest(s);
    MatchNumberLongest(s);
  }

  // ---------------------------------------------------------------------
  // FindAllString and the check that the matches tile the input.
  //
  // These are stated for any anchored matcher `scan` whose matches are
  // non-empty prefixes of the text; ParsePolynomial uses them with ScanTerm.

  /** Every match `scan` reports is a non-empty prefix of the text it was given. */
  ghost predicate Anchored(scan: string -> Option<Term>) {
    forall x {:trigger scan(x)} :: scan(x).Some? ==> StartsWith(x, scan(x).value)
  }

  /** ScanTerm is such a matcher. */
  lemma ScanTermAnchored()
    ensures Anchored(ScanTerm)
  {
    forall x ensures ScanTerm(x).Some? ==> StartsWith(x, ScanTerm(x).value) {
    }
  }

  /**
   * `FindAllString(s[p..], -1)`: at each position the leftmost match is taken
   * and the search resumes after it; where no match starts, one character is
   * skipped.
   */
  function FindAll(scan: string -> Option<Term>, s: string, p: nat): (r: seq<Term>)
    requires Anchored(scan) && p <= |s|
    decreases |s| - p
  {
    if p == |s| then []
    else match scan(s[p..])
      case Some(t) => [t] + FindAll(scan, s, p + |Lexeme(t)|)
      case None => FindAll(scan, s, p + 1)
  }

  /** `strings.Join(terms, "")` */
  function Join(ts: seq<Term>): string {
    if ts == [] then "" else Lexeme(ts[0]) + Join(ts[1..])
  }

  /**
   * Reading the string term after term from position `p`, failing as soon as
   * no term starts at the current position.
   */
  function Tokenize(scan: string -> Option<Term>, s: string, p: nat): Option<seq<Term>>
    requires Anchored(scan) && p <= |s|
    decreases |s| - p
  {
    if p == |s| then Some([])
    else match scan(s[p..])
      case None => None
      case Some(t) =>
        match Tokenize(scan, s, p + |Lexeme(t)|)
        case None => None
        case Some(ts) => Some([t] + ts)
  }

  /** A term read at position `p` spells the next |Lexeme| characters. */
  lemma ScanAt(scan: string -> Option<Term>, s: string, p: nat)
    requires Anchored(scan) && p < |s| && scan(s[p..]).Some?
    ensures p + |Lexeme(scan(s[p..]).value)| <= |s|
    ensures s[p..] == Lexeme(scan(s[p..]).value) + s[p + |Lexeme(scan(s[p..]).value)|..]
  {
    var n := |Lexeme(scan(s[p..]).value)|;
    SplitAt(s, p, p + n, |s|);
    assert s[p..] == s[p..|s|];
  }

  /** The joined matches are never longer than the text they were found in. */
  lemma {:induction false} JoinLength(scan: string -> Option<Term>, s: string, p: nat)
    requires Anchored(scan) && p <= |s|
    ensures |Join(FindAll(scan, s, p))| <= |s| - p
    decreases |s| - p
  {
    if p < |s| {
      match scan(s[p..])
      case Some(t) =>
        ScanAt(scan, s, p);
        JoinLength(scan, s, p + |Lexeme(t)|);
      case None =>
        JoinLength(scan, s, p + 1);
    }
  }

  /**
   * The joined matches of FindAll reproduce the input exactly when the input
   * can be read term after term without a gap.
   */
  lemma {:induction false} FindAllTiles(scan: string -> Option<Term>, s: string, p: nat)
    requires Anchored(scan) && p <= |s|
    ensures Join(FindAll(scan, s, p)) == s[p..] <==> Tokenize(scan, s, p).Some?
    decreases |s| - p
  {
    if p < |s| {
      match scan(s[p..])
      case Some(t) =>
        var n := |Lexeme(t)|;
        ScanAt(scan, s, p);
        FindAllTiles(scan, s, p + n);
        assert Join(FindAll(scan, s, p)) == Lexeme(t) + Join(FindAll(scan, s, p + n));
      case None =>
        JoinLength(scan, s, p + 1);
    }
  }

  /** When the input reads term after term without a gap, FindAll finds exactly those terms. */
  lemma {:induction false} FindAllIsTokenize(scan: string -> Option<Term>, s: string, p: nat)
    requires Anchored(scan) && p <= |s| && Tokenize(scan, s, p).Some?
    ensures FindAll(scan, s, p) == Tokenize(scan, s, p).value
    decreases |s| - p
  {
    if p < |s| {
      var t := scan(s[p..]).value;
      FindAllIsTokenize(scan, s, p + |Lexeme(t)|);
    }
  }

  /** Consecutive terms read by Tokenize join to the input. */
  lemma {:induction false} TokenizeJoins(scan: string -> Option<Term>, s: string, p: nat)
    requires Anchored(scan) && p <= |s|
    ensures Tokenize(scan, s, p).Some? ==> Join(Tokenize(scan, s, p).value) == s[p..]
    decreases |s| - p
  {
    if p < |s| && Tokenize(scan, s, p).Some? {
      var t := scan(s[p..]).value;
      ScanAt(scan, s, p);
      TokenizeJoins(scan, s, p + |Lexeme(t)|);
    }
  }

  /** FindAll finds nothing exactly when no term starts anywhere from `p` on. */
  lemma {:induction false} FindAllEmpty(scan: string -> Option<Term>, s: string, p: nat)
    requires Anchored(scan) && p <= |s|
    ensures FindAll(scan, s, p) == [] <==> forall q :: p <= q < |s| ==> scan(s[q..]).None?
    decreases |s| - p
  {
    if p < |s| && scan(s[p..]).None? {
      FindAllEmpty(scan, s, p + 1);
    }
  }

  /** The search from position p depends only on the text from some q <= p on. */
  lemma {:induction false} FindAllShift(scan: string -> Option<Term>, s: string, q: nat, p: nat)
    requires Anchored(scan) && q <= p <= |s|
    ensures FindAll(scan, s, p) == FindAll(scan, s[q..], p - q)
    decreases |s| - p
  {
    if p < |s| {
      assert s[q..][p - q..] == s[p..];
      match scan(s[p..])
      case Some(t) =>
        ScanAt(scan, s, p);
        FindAllShift(scan, s, q, p + |Lexeme(t)|);
      case None =>
        FindAllShift(scan, s, q, p + 1);
    }
  }

  /** A term matched at the start is the first one found; the search goes on after it. */
  lemma FindAllFirst(scan: string -> Option<Term>, w: string, rest: string, t: Term)
    requires Anchored(scan) && scan(w + rest) == Some(t) && Lexeme(t) == w
    ensures FindAll(scan, w + rest, 0) == [t] + FindAll(scan, rest, 0)
  {
    var s := w + rest;
    assert s[0..] == s;
    FindAllShift(scan, s, |w|, |w|);
    assert s[|w|..] == rest;
  }

  /** Where no term starts, the search moves on by one character. */
  lemma FindAllSkipFirst(scan: string -> Option<Term>, c: char, rest: string)
    requires Anchored(scan) && scan([c] + rest).None?
    ensures FindAll(scan, [c] + rest, 0) == FindAll(scan, rest, 0)
  {
    var s := [c] + rest;
    assert s[0..] == s;
    FindAllShift(scan, s, 1, 1);
    assert s[1..] == rest;
  }

  /** Every term ScanTerm reads has the shape of a term. */
  lemma ScanTermWellFormed(s: string)
    ensures ScanTerm(s).Some? ==> WellFormed(ScanTerm(s).value)
  {
    MatchVariableWellFormed(s);
    MatchNumberWellFormed(s);
  }

  /** ScanTerm produces only well-formed terms. */
  lemma ScanTermProducesWellFormed()
    ensures forall x :: ScanTerm(x).Some? ==> WellFormed(ScanTerm(x).value)
  {
    forall x ensures ScanTerm(x).Some? ==> WellFormed(ScanTerm(x).value) {
      ScanTermWellFormed(x);
    }
  }

  /** Every term FindAll finds with a matcher that produces well-formed terms is well formed. */
  lemma {:induction false} FindAllWellFormed(scan: string -> Option<Term>, s: string, p: nat)
    requires Anchored(scan) && p <= |s|
    requires forall x :: scan(x).Some? ==> WellFormed(scan(x).value)
    ensures forall i :: 0 <= i < |FindAll(scan, s, p)| ==> WellFormed(FindAll(scan, s, p)[i])
    decreases |s| - p
  {
    if p < |s| {
      match scan(s[p..])
      case Some(t) =>
        FindAllWellFormed(scan, s, p + |Lexeme(t)|);
      case None =>
        FindAllWellFormed(scan, s, p + 1);
    }
  }
}
