/** The numeric test the server applies to each comma-separated field,
    JavaScript's `!isNaN(field)` on a string. `isNaN` converts its argument with
    ECMAScript's StringToNumber, which yields NaN exactly when the string, with
    its surrounding white space removed, is not a StringNumericLiteral (section
    7.1.4.1.1 of ECMA-262). So the test is a recognizer for that grammar, not a
    test of whether the field "is a float": the empty string and white space alone
    count as numeric (they convert to 0), so do `Infinity`, `1e999` and `0x1F`,
    while `-0x1F`, `1_000`, `NaN` and words do not.

    The grammar is given twice: as the recognizer IsStringNumericLiteral that
    the server's decision uses, and as a datatype of literals with the text
    each one renders to. ParseLiteral and LiteralAccepted show that the two
    agree. */
module JsNumber {
  import opened Options
  import opened JsString

  predicate IsDecimalDigit(c: char) {
    '0' <= c <= '9'
  }

  predicate DecimalDigits(s: string) {
    forall i | 0 <= i < |s| :: IsDecimalDigit(s[i])
  }

  predicate IsSign(c: char) {
    c == '+' || c == '-'
  }

  predicate IsExponentMark(c: char) {
    c == 'e' || c == 'E'
  }

  /** The radix of a non-decimal integer literal, chosen by the letter after its leading `0`. */
  datatype Radix = Hexadecimal | Octal | Binary

  function RadixOf(c: char): Option<Radix> {
    if c == 'x' || c == 'X' then Some(Hexadecimal)
    else if c == 'o' || c == 'O' then Some(Octal)
    else if c == 'b' || c == 'B' then Some(Binary)
    else None
  }

  predicate IsDigitOf(r: Radix, c: char) {
    match r
    case Hexadecimal => IsDecimalDigit(c) || 'a' <= c <= 'f' || 'A' <= c <= 'F'
    case Octal => '0' <= c <= '7'
    case Binary => c == '0' || c == '1'
  }

  predicate DigitsOf(r: Radix, s: string) {
    forall i | 0 <= i < |s| :: IsDigitOf(r, s[i])
  }

  /** The position of the first exponent mark in `s`, or |s| when there is none. */
  function IndexOfExponentMark(s: string): (k: nat)
    ensures k <= |s|
    ensures forall i | 0 <= i < k :: !IsExponentMark(s[i])
    ensures k < |s| ==> IsExponentMark(s[k])
  {
    if s == [] || IsExponentMark(s[0]) then 0 else 1 + IndexOfExponentMark(s[1..])
  }

  // ---------------------------------------------------------------------------
  // The recognizer
  // ---------------------------------------------------------------------------

  /** Digits with an optional fraction (`12`, `12.`, `12.5`, `.5`), but not a lone `.`. */
  predicate IsMantissa(m: string) {
    var p := IndexOf(m, '.');
    if p == |m| then m != [] && DecimalDigits(m)
    else DecimalDigits(m[..p]) && DecimalDigits(m[p + 1..]) && |m| > 1
  }

  /** What follows an exponent mark: an optional sign and at least one digit. */
  predicate IsExponentDigits(x: string) {
    if x != [] && IsSign(x[0]) then x[1..] != [] && DecimalDigits(x[1..])
    else x != [] && DecimalDigits(x)
  }

  /** A mantissa, optionally followed by an exponent mark and exponent digits. */
  predicate IsFiniteDecimal(u: string) {
    var k := IndexOfExponentMark(u);
    if k == |u| then IsMantissa(u) else IsMantissa(u[..k]) && IsExponentDigits(u[k + 1..])
  }

  /** StrUnsignedDecimalLiteral: `Infinity`, or a finite decimal. */
  predicate IsUnsignedDecimal(u: string) {
    u == "Infinity" || IsFiniteDecimal(u)
  }

  /** StrDecimalLiteral: an optional sign, then an unsigned decimal. */
  predicate IsDecimal(t: string) {
    if t != [] && IsSign(t[0]) then IsUnsignedDecimal(t[1..]) else IsUnsignedDecimal(t)
  }

  /** NonDecimalIntegerLiteral: `0x`, `0o` or `0b` (either case) and at least
      one digit of that radix; no sign is allowed. */
  predicate IsNonDecimalInteger(t: string) {
    |t| > 2 && t[0] == '0' && RadixOf(t[1]).Some? && DigitsOf(RadixOf(t[1]).value, t[2..])
  }

  /** StringNumericLiteral, once the surrounding white space is gone: empty, decimal or non-decimal. */
  predicate IsStringNumericLiteral(t: string) {
    t == [] || IsDecimal(t) || IsNonDecimalInteger(t)
  }

  /** `!isNaN(s)` for a string `s`. */
  predicate IsNumericJS(s: string) {
    IsStringNumericLiteral(Trim(s))
  }

  // ---------------------------------------------------------------------------
  // The grammar as a datatype
  // ---------------------------------------------------------------------------

  datatype Sign = NoSign | Plus | Minus

  /** An exponent part: the mark (`E` when `upper`), an optional sign, digits. */
  datatype Exponent = Exponent(upper: bool, sign: Sign, digits: string)

  /** `Infinity`, or integer digits, an optional `.` with fraction digits, and an optional exponent. */
  datatype Numeral =
    | Infinity
    | Digits(integer: string, fraction: Option<string>, exponent: Option<Exponent>)

  /** A StringNumericLiteral without its surrounding white space. */
  datatype Literal =
    | Blank
    | Decimal(sign: Sign, numeral: Numeral)
    | NonDecimal(radixMark: char, digits: string)

  predicate WellFormedNumeral(n: Numeral) {
    match n
    case Infinity => true
    case Digits(i, f, e) =>
      DecimalDigits(i)
      && (match f
          case None => i != []
          case Some(fd) => DecimalDigits(fd) && |i| + |fd| > 0)
      && (e.Some? ==> DecimalDigits(e.value.digits) && e.value.digits != [])
  }

  predicate WellFormed(lit: Literal) {
    match lit
    case Blank => true
    case Decimal(_, n) => WellFormedNumeral(n)
    case NonDecimal(m, d) => RadixOf(m).Some? && d != [] && DigitsOf(RadixOf(m).value, d)
  }

  function SignText(s: Sign): string {
    match s
    case NoSign => ""
    case Plus => "+"
    case Minus => "-"
  }

  function ExponentText(e: Exponent): string {
    (if e.upper then "E" else "e") + SignText(e.sign) + e.digits
  }

  function MantissaText(integer: string, fraction: Option<string>): string {
    match fraction
    case None => integer
    case Some(fd) => integer + "." + fd
  }

  function NumeralText(n: Numeral): string {
    match n
    case Infinity => "Infinity"
    case Digits(i, f, e) =>
      MantissaText(i, f) + (match e case None => "" case Some(x) => ExponentText(x))
  }

  function Render(lit: Literal): string {
    match lit
    case Blank => ""
    case Decimal(s, n) => SignText(s) + NumeralText(n)
    case NonDecimal(m, d) => "0" + [m] + d
  }

  // ---------------------------------------------------------------------------
  // The two descriptions agree
  // ---------------------------------------------------------------------------

  function ParseSign(c: char): Sign {
    if c == '+' then Plus else if c == '-' then Minus else NoSign
  }

  function ParseMantissa(m: string): (r: (string, Option<string>))
    requires IsMantissa(m)
    ensures MantissaText(r.0, r.1) == m
    ensures WellFormedNumeral(Digits(r.0, r.1, None))
  {
    var p := IndexOf(m, '.');
    if p == |m| then (m, None)
    else
      assert m == m[..p] + "." + m[p + 1..];
      (m[..p], Some(m[p + 1..]))
  }

  function ParseExponent(upper: bool, x: string): (e: Exponent)
    requires IsExponentDigits(x)
    ensures ExponentText(e) == (if upper then "E" else "e") + x
    ensures DecimalDigits(e.digits) && e.digits != []
  {
    if IsSign(x[0]) then
      assert x == [x[0]] + x[1..];
      Exponent(upper, ParseSign(x[0]), x[1..])
    else Exponent(upper, NoSign, x)
  }

  function ParseFiniteDecimal(u: string): (n: Numeral)
    requires IsFiniteDecimal(u)
    ensures n.Digits? && WellFormedNumeral(n) && NumeralText(n) == u
  {
    var k := IndexOfExponentMark(u);
    if k == |u| then
      var (i, f) := ParseMantissa(u);
      Digits(i, f, None)
    else ParseScientific(u, k)
  }

  /** A mantissa, the exponent mark at `k`, and the exponent digits. */
  function ParseScientific(u: string, k: nat): (n: Numeral)
    requires k < |u| && IsExponentMark(u[k])
    requires IsMantissa(u[..k]) && IsExponentDigits(u[k + 1..])
    ensures n.Digits? && WellFormedNumeral(n) && NumeralText(n) == u
  {
    var (i, f) := ParseMantissa(u[..k]);
    var e := ParseExponent(u[k] == 'E', u[k + 1..]);
    assert (if u[k] == 'E' then "E" else "e") == [u[k]];
    CutAt(u, k);
    Digits(i, f, Some(e))
  }

  lemma CutAt(u: string, k: nat)
    requires k < |u|
    ensures u == u[..k] + [u[k]] + u[k + 1..]
  {
  }

  function ParseNumeral(u: string): (n: Numeral)
    requires IsUnsignedDecimal(u)
    ensures WellFormedNumeral(n) && NumeralText(n) == u
  {
    if u == "Infinity" then Infinity else ParseFiniteDecimal(u)
  }

  function ParseDecimal(t: string): (lit: Literal)
    requires IsDecimal(t)
    ensures WellFormed(lit) && Render(lit) == t
  {
    if t != [] && IsSign(t[0]) then
      CutAt(t, 0);
      assert SignText(ParseSign(t[0])) == [t[0]];
      Decimal(ParseSign(t[0]), ParseNumeral(t[1..]))
    else Decimal(NoSign, ParseNumeral(t))
  }

  function ParseNonDecimal(t: string): (lit: Literal)
    requires IsNonDecimalInteger(t)
    ensures WellFormed(lit) && Render(lit) == t
  {
    assert t == "0" + [t[1]] + t[2..];
    NonDecimal(t[1], t[2..])
  }

  /** Every string the recognizer accepts is the text of a well-formed literal. */
  function ParseLiteral(t: string): (lit: Literal)
    requires IsStringNumericLiteral(t)
    ensures WellFormed(lit) && Render(lit) == t
  {
    if t == [] then Blank
    else if IsDecimal(t) then ParseDecimal(t)
    else ParseNonDecimal(t)
  }

  lemma MantissaAccepted(i: string, f: Option<string>)
    requires WellFormedNumeral(Digits(i, f, None))
    ensures var m := MantissaText(i, f);
      IsMantissa(m) && IndexOfExponentMark(m) == |m| && m != []
      && (forall j | 0 <= j < |m| :: IsDecimalDigit(m[j]) || m[j] == '.')
  {
    var m := MantissaText(i, f);
    match f
    case None =>
      assert forall j | 0 <= j < |m| :: IsDecimalDigit(m[j]);
      assert '.' !in m;
      ExponentMarkAbsent(m);
    case Some(fd) =>
      assert m[..|i|] == i;
      assert m[|i| + 1..] == fd;
      assert forall j | 0 <= j < |m| :: IsDecimalDigit(m[j]) || m[j] == '.' by {
        forall j | 0 <= j < |m| ensures IsDecimalDigit(m[j]) || m[j] == '.' {
          if j < |i| { assert m[j] == i[j]; }
          else if j > |i| { assert m[j] == fd[j - |i| - 1]; }
        }
      }
      ExponentMarkAbsent(m);
      IndexOfAt(m, '.', |i|);
  }

  lemma {:induction false} ExponentMarkAbsent(s: string)
    requires forall j | 0 <= j < |s| :: IsDecimalDigit(s[j]) || s[j] == '.'
    ensures IndexOfExponentMark(s) == |s|
    decreases |s|
  {
    if s != [] {
      ExponentMarkAbsent(s[1..]);
    }
  }

  /** The first exponent mark of a mantissa followed by an exponent part is the exponent's own. */
  lemma {:induction false} ExponentMarkAfterMantissa(m: string, xt: string)
    requires IndexOfExponentMark(m) == |m|
    requires xt != [] && IsExponentMark(xt[0])
    ensures IndexOfExponentMark(m + xt) == |m|
    decreases |m|
  {
    if m != [] {
      assert (m + xt)[1..] == m[1..] + xt;
      ExponentMarkAfterMantissa(m[1..], xt);
    }
  }

  lemma ExponentAccepted(x: Exponent)
    requires DecimalDigits(x.digits) && x.digits != []
    ensures var xt := ExponentText(x);
      xt != [] && IsExponentMark(xt[0]) && IsExponentDigits(xt[1..])
      && (forall j | 0 <= j < |xt| :: IsDecimalDigit(xt[j]) || IsSign(xt[j]) || IsExponentMark(xt[j]))
  {
    var xt := ExponentText(x);
    var rest := SignText(x.sign) + x.digits;
    assert xt == [xt[0]] + rest;
    assert xt[1..] == rest;
    if x.sign != NoSign {
      assert rest[1..] == x.digits;
    }
  }

  /** The characters a finite decimal numeral is written with. */
  predicate InDecimalAlphabet(s: string) {
    forall j | 0 <= j < |s| :: IsDecimalDigit(s[j]) || s[j] == '.' || IsSign(s[j]) || IsExponentMark(s[j])
  }

  lemma InDecimalAlphabetConcat(a: string, b: string)
    requires InDecimalAlphabet(a) && InDecimalAlphabet(b)
    ensures InDecimalAlphabet(a + b)
  {
    assert forall j | 0 <= j < |a + b| :: (a + b)[j] == if j < |a| then a[j] else b[j - |a|];
  }

  lemma NumeralAccepted(n: Numeral)
    requires WellFormedNumeral(n)
    ensures IsUnsignedDecimal(NumeralText(n))
    ensures n.Digits? ==> NumeralText(n) != [] && (IsDecimalDigit(NumeralText(n)[0]) || NumeralText(n)[0] == '.')
    ensures n.Digits? ==> InDecimalAlphabet(NumeralText(n))
  {
    match n
    case Infinity =>
    case Digits(i, f, e) =>
      var m := MantissaText(i, f);
      MantissaAccepted(i, f);
      if e.Some? {
        ExponentNumeralAccepted(i, f, e.value);
        ExponentNumeralAlphabet(i, f, e.value);
        assert NumeralText(n) == m + ExponentText(e.value);
      } else {
        assert NumeralText(n) == m;
      }
  }

  lemma ExponentNumeralAccepted(i: string, f: Option<string>, x: Exponent)
    requires WellFormedNumeral(Digits(i, f, Some(x)))
    ensures var u := MantissaText(i, f) + ExponentText(x);
      IsFiniteDecimal(u) && u[0] == MantissaText(i, f)[0]
  {
    var m := MantissaText(i, f);
    var xt := ExponentText(x);
    var u := m + xt;
    MantissaAccepted(i, f);
    ExponentAccepted(x);
    ExponentMarkAfterMantissa(m, xt);
    assert u[..|m|] == m;
    assert u[|m| + 1..] == xt[1..];
  }

  lemma ExponentNumeralAlphabet(i: string, f: Option<string>, x: Exponent)
    requires WellFormedNumeral(Digits(i, f, Some(x)))
    ensures InDecimalAlphabet(MantissaText(i, f) + ExponentText(x))
  {
    MantissaAccepted(i, f);
    ExponentAccepted(x);
    InDecimalAlphabetConcat(MantissaText(i, f), ExponentText(x));
  }

  /** Every well-formed literal is accepted by the recognizer. */
  lemma LiteralAccepted(lit: Literal)
    requires WellFormed(lit)
    ensures IsStringNumericLiteral(Render(lit))
  {
    match lit
    case Blank =>
    case Decimal(s, n) =>
      var t := Render(lit);
      NumeralAccepted(n);
      var u := NumeralText(n);
      assert u != [] && !IsSign(u[0]);
      if s == NoSign {
        assert t == u;
      } else {
        assert t[1..] == u;
      }
    case NonDecimal(m, d) =>
      var t := Render(lit);
      assert t[2..] == d;
  }

  /** The recognizer and the grammar describe the same strings. */
  lemma NumericLiteralGrammar(t: string)
    ensures IsStringNumericLiteral(t) <==> exists lit :: WellFormed(lit) && Render(lit) == t
  {
    if IsStringNumericLiteral(t) {
      var lit := ParseLiteral(t);
      assert WellFormed(lit) && Render(lit) == t;
    }
    forall lit | WellFormed(lit) && Render(lit) == t
      ensures IsStringNumericLiteral(t)
    {
      LiteralAccepted(lit);
    }
  }

  // ---------------------------------------------------------------------------
  // Consequences: what the test accepts and rejects
  // ---------------------------------------------------------------------------

  /** The characters a numeric literal can contain: digits, signs, the point,
      exponent marks, radix marks, hexadecimal digits and the letters of `Infinity`. */
  predicate InNumeralAlphabet(c: char) {
    IsDecimalDigit(c) || IsSign(c) || c == '.' || IsExponentMark(c)
    || RadixOf(c).Some? || IsDigitOf(Hexadecimal, c)
    || c == 'I' || c == 'n' || c == 'f' || c == 'i' || c == 't' || c == 'y'
  }

  predicate IsNumeralStart(c: char) {
    IsDecimalDigit(c) || IsSign(c) || c == '.' || c == 'I'
  }

  predicate InAlphabet(s: string) {
    forall j | 0 <= j < |s| :: InNumeralAlphabet(s[j])
  }

  lemma InAlphabetConcat(a: string, b: string)
    requires InAlphabet(a) && InAlphabet(b)
    ensures InAlphabet(a + b)
  {
    assert forall j | 0 <= j < |a + b| :: (a + b)[j] == if j < |a| then a[j] else b[j - |a|];
  }

  lemma NumeralShape(n: Numeral)
    requires WellFormedNumeral(n)
    ensures InAlphabet(NumeralText(n))
    ensures NumeralText(n) != [] && IsNumeralStart(NumeralText(n)[0])
  {
    if n.Digits? {
      NumeralAccepted(n);
    } else {
      var t := NumeralText(n);
      assert t == "Infinity";
      assert forall j | 0 <= j < |t| :: t[j] in "Infinity";
    }
  }

  lemma LiteralShape(lit: Literal)
    requires WellFormed(lit)
    ensures InAlphabet(Render(lit))
    ensures Render(lit) != [] ==> IsNumeralStart(Render(lit)[0])
  {
    match lit
    case Blank =>
    case Decimal(s, n) =>
      NumeralShape(n);
      InAlphabetConcat(SignText(s), NumeralText(n));
    case NonDecimal(m, d) =>
      var r := RadixOf(m).value;
      assert InAlphabet(d) by {
        assert forall j | 0 <= j < |d| :: IsDigitOf(r, d[j]);
      }
      InAlphabetConcat("0" + [m], d);
  }

  /** A field is numeric only if, once trimmed, it starts like a number and uses
      only the numeral alphabet. */
  lemma NumericShape(s: string)
    requires IsNumericJS(s)
    ensures forall j | 0 <= j < |Trim(s)| :: InNumeralAlphabet(Trim(s)[j])
    ensures Trim(s) != [] ==> IsNumeralStart(Trim(s)[0])
  {
    LiteralShape(ParseLiteral(Trim(s)));
  }

  /** Ordinary words are not numeric: a field that, once trimmed, starts with a
      letter other than `I`, or contains a letter outside the numeral alphabet
      (such as `g`, `h`, `l`, `s`, `u`), fails the test. */
  lemma LettersAreNotNumeric(s: string, j: nat)
    requires j < |Trim(s)|
    requires ('a' <= Trim(s)[j] <= 'z' || 'A' <= Trim(s)[j] <= 'Z')
    requires (j == 0 && Trim(s)[0] != 'I') || !InNumeralAlphabet(Trim(s)[j])
    ensures !IsNumericJS(s)
  {
    if IsNumericJS(s) {
      NumericShape(s);
    }
  }

  /** Blank fields are numeric, since StringToNumber turns them into 0. */
  lemma BlankIsNumeric(s: string)
    requires AllWhiteSpace(s)
    ensures IsNumericJS(s)
  {
    assert s == s + [] + [];
    TrimOfPadded(s, [], []);
  }

  /** A field is numeric exactly when its trimmed form is: the test ignores surrounding white space. */
  lemma NumericIgnoresPadding(w1: string, s: string, w2: string)
    requires AllWhiteSpace(w1) && AllWhiteSpace(w2)
    ensures IsNumericJS(w1 + s + w2) == IsNumericJS(s)
  {
    TrimIgnoresPadding(w1, s, w2);
  }

  /** A rendered literal contains no white space, so it is its own trimmed form. */
  lemma RenderedIsTrimmed(lit: Literal)
    requires WellFormed(lit)
    ensures NoOuterWhiteSpace(Render(lit)) && Trim(Render(lit)) == Render(lit)
    ensures forall j | 0 <= j < |Render(lit)| :: Render(lit)[j] != ','
  {
    LiteralShape(lit);
    var t := Render(lit);
    forall j | 0 <= j < |t| ensures !IsWhiteSpace(t[j]) && t[j] != ',' {
      AlphabetIsNotWhiteSpace(t[j]);
    }
    NoWhiteSpaceIsTrimmed(t);
  }

  lemma AlphabetIsNotWhiteSpace(c: char)
    requires InNumeralAlphabet(c)
    ensures !IsWhiteSpace(c) && c != ','
  {
  }

  /** Every well-formed literal passes the test. */
  lemma RenderedIsNumeric(lit: Literal)
    requires WellFormed(lit)
    ensures IsNumericJS(Render(lit))
  {
    RenderedIsTrimmed(lit);
    LiteralAccepted(lit);
  }

  /** A coordinate written the way a geolocation reading prints it, an optional
      minus sign, integer digits, a point and fraction digits, is numeric. */
  lemma CoordinateIsNumeric(negative: bool, integer: string, fraction: string)
    requires integer != [] && DecimalDigits(integer) && DecimalDigits(fraction)
    ensures IsNumericJS((if negative then "-" else "") + integer + "." + fraction)
  {
    var n := Digits(integer, Some(fraction), None);
    var sign := if negative then Minus else NoSign;
    var lit := Decimal(sign, n);
    var m := integer + "." + fraction;
    assert NumeralText(n) == m + "";
    assert m + "" == m;
    assert SignText(sign) == (if negative then "-" else "");
    assert Render(lit) == (if negative then "-" else "") + integer + "." + fraction;
    RenderedIsNumeric(lit);
  }

  /** `Infinity`, signed or not, is numeric: it converts to an infinite number, not NaN. */
  lemma InfinityIsNumeric(sign: Sign)
    ensures IsNumericJS(SignText(sign) + "Infinity")
  {
    var lit := Decimal(sign, Infinity);
    RenderedIsNumeric(lit);
  }
  /** A hexadecimal literal is numeric. */
  lemma HexadecimalIsNumeric(digits: string)
    requires digits != [] && DigitsOf(Hexadecimal, digits)
    ensures IsNumericJS("0x" + digits)
  {
    var lit := NonDecimal('x', digits);
    RenderedIsNumeric(lit);
    assert Render(lit) == "0x" + digits;
  }
  /** A hexadecimal literal with a sign is not. */
  lemma SignedHexadecimalIsNotNumeric(t: string)
    requires |t| > 3 && t[..3] == "-0x" && DigitsOf(Hexadecimal, t[3..])
    ensures !IsNumericJS(t)
  {
    SignedHexadecimalIsTrimmed(t);
    SignedHexadecimalIsNotLiteral(t);
  }

  lemma SignedHexadecimalIsTrimmed(t: string)
    requires |t| > 3 && t[..3] == "-0x" && DigitsOf(Hexadecimal, t[3..])
    ensures Trim(t) == t
  {
    SignedHexadecimalChars(t);
    NoWhiteSpaceIsTrimmed(t);
  }

  lemma SignedHexadecimalIsNotLiteral(t: string)
    requires |t| > 3 && t[..3] == "-0x" && DigitsOf(Hexadecimal, t[3..])
    ensures !IsStringNumericLiteral(t)
  {
    SignedHexadecimalChars(t);
    SignedHexadecimalIsNotDecimal(t);
    SignedHexadecimalIsNotNonDecimal(t);
  }

  lemma SignedHexadecimalChars(t: string)
    requires |t| > 3 && t[..3] == "-0x" && DigitsOf(Hexadecimal, t[3..])
    ensures forall j | 0 <= j < |t| :: !IsWhiteSpace(t[j]) && t[j] != '.'
  {
    forall j | 0 <= j < |t| ensures !IsWhiteSpace(t[j]) && t[j] != '.' {
      if j >= 3 { assert t[j] == t[3..][j - 3]; } else { assert t[j] == t[..3][j]; }
    }
  }
  lemma SignedHexadecimalIsNotDecimal(t: string)
    requires |t| > 3 && t[..3] == "-0x" && forall j | 0 <= j < |t| :: t[j] != '.'
    ensures !IsDecimal(t)
  {
    var u := t[1..];
    assert u[0] == t[..3][1] && u[1] == t[..3][2];
    forall j | 0 <= j < |u| ensures u[j] != '.' {
      assert u[j] == t[j + 1];
    }
    RadixMarkIsNotDecimal(u);
    assert t[0] == t[..3][0];
  }
  lemma SignedHexadecimalIsNotNonDecimal(t: string)
    requires |t| > 3 && t[..3] == "-0x"
    ensures !IsNonDecimalInteger(t)
  {
    assert t[0] == t[..3][0];
  }

  /** A string starting `0x` without a point is not an unsigned decimal. */
  lemma RadixMarkIsNotDecimal(u: string)
    requires |u| >= 2 && u[0] == '0' && u[1] == 'x'
    requires forall j | 0 <= j < |u| :: u[j] != '.'
    ensures !IsUnsignedDecimal(u)
  {
    var k := IndexOfExponentMark(u);
    assert k >= 2;
    var m := u[..k];
    assert m[1] == 'x';
    assert '.' !in m;
    assert !IsMantissa(m);
    assert k == |u| ==> m == u;
    assert u != "Infinity" by { assert u[0] != "Infinity"[0]; }
  }

  /** An exponent mark with nothing after it makes a field non-numeric. */
  lemma DanglingExponentIsNotNumeric(d: string)
    requires d != [] && DecimalDigits(d)
    ensures !IsNumericJS(d + "e")
  {
    DanglingExponentIsTrimmed(d);
    DanglingExponentIsNotLiteral(d);
  }

  lemma DanglingExponentIsTrimmed(d: string)
    requires d != [] && DecimalDigits(d)
    ensures Trim(d + "e") == d + "e"
  {
    var t := d + "e";
    forall j | 0 <= j < |t| ensures !IsWhiteSpace(t[j]) {
      if j < |d| { assert t[j] == d[j]; }
    }
    NoWhiteSpaceIsTrimmed(t);
  }

  lemma DanglingExponentIsNotLiteral(d: string)
    requires d != [] && DecimalDigits(d)
    ensures !IsStringNumericLiteral(d + "e")
  {
    var t := d + "e";
    assert t[0] == d[0];
    forall j | 0 <= j < |d| ensures !IsExponentMark(t[j]) {
      assert t[j] == d[j];
    }
    assert t[|d|] == 'e';
    assert IndexOfExponentMark(t) == |d|;
    assert t[|d| + 1..] == [];
    assert !IsExponentDigits(t[|d| + 1..]);
    assert !IsFiniteDecimal(t);
    assert t != "Infinity" by { assert t[0] != "Infinity"[0]; }
    assert |d| == 1 ==> t[1] == 'e';
    assert |d| > 1 ==> t[1] == d[1];
  }

  lemma NoWhiteSpaceIsTrimmed(t: string)
    requires forall j | 0 <= j < |t| :: !IsWhiteSpace(t[j])
    ensures Trim(t) == t
  {
    assert [] + t + [] == t;
    TrimOfPadded([], t, []);
  }
}
