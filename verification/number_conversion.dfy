/** Numeric conversion of one token, the `Number(input)` call that the
    calculator's normalize stage applies to every token.

    JavaScript's `Number` is a foreign built-in; this module models the part
    of it the calculator relies on: an optional sign, decimal digits with an
    optional decimal point, and the empty string, which converts to zero.
    A token outside that grammar converts to "not a number", written `None`.
    Values are exact rationals (`real`), not IEEE-754 doubles. */
module NumberConversion {

  datatype Option<T> = None | Some(value: T)

  predicate IsDigit(c: char) {
    '0' <= c <= '9'
  }

  predicate AllDigits(s: string) {
    forall i :: 0 <= i < |s| ==> IsDigit(s[i])
  }

  function DigitValue(c: char): (d: nat)
    requires IsDigit(c)
    ensures d < 10
  {
    (c as int) - ('0' as int)
  }

  function Pow10(k: nat): (p: nat)
    ensures p >= 1
  {
    if k == 0 then 1 else 10 * Pow10(k - 1)
  }

  /** The value of a run of decimal digits, most significant digit first. */
  function DigitsValue(s: string): (n: nat)
    requires AllDigits(s)
    ensures n < Pow10(|s|)
  {
    if s == [] then 0
    else
      var prefix := s[..|s| - 1];
      assert Pow10(|s|) == 10 * Pow10(|prefix|);
      DigitsValue(prefix) * 10 + DigitValue(s[|s| - 1])
  }

  /** The value of the digits written after a decimal point: each digit
      counts a tenth of what the one before it counts. */
  function Fraction(s: string): (f: real)
    requires AllDigits(s)
    ensures 0.0 <= f < 1.0
  {
    if s == [] then 0.0 else (DigitValue(s[0]) as real + Fraction(s[1..])) / 10.0
  }

  /** The value of digits `whole` followed by a point and digits `frac`. */
  function Magnitude(whole: string, frac: string): (m: real)
    requires AllDigits(whole) && AllDigits(frac)
    ensures DigitsValue(whole) as real <= m < DigitsValue(whole) as real + 1.0
  {
    DigitsValue(whole) as real + Fraction(frac)
  }

  datatype Sign = NoSign | Plus | Minus

  function SignOf(t: string): Sign {
    if t != [] && t[0] == '-' then Minus
    else if t != [] && t[0] == '+' then Plus
    else NoSign
  }

  /** What follows the sign, if any. */
  function Unsigned(t: string): string {
    if SignOf(t) == NoSign then t else t[1..]
  }

  /** What has been read of an unsigned decimal so far: the digits before
      the point, whether the point has been read, the digits after it. */
  datatype Reading = Reading(whole: string, point: bool, frac: string)

  const Start := Reading([], false, [])

  predicate Consistent(r: Reading) {
    AllDigits(r.whole) && AllDigits(r.frac) && (!r.point ==> r.frac == [])
  }

  /** `r` after the digits `ds`, on whichever side of the point it is. */
  function Absorb(r: Reading, ds: string): (r': Reading)
    requires Consistent(r) && AllDigits(ds)
    ensures Consistent(r') && r'.point == r.point
  {
    if r.point then r.(frac := r.frac + ds) else r.(whole := r.whole + ds)
  }

  /** Reads `b` after `r`, one character at a time: a digit joins the side
      of the point it stands on, the first point switches sides, and any
      other character (a second point included) is rejected. */
  function Read(r: Reading, b: string): (o: Option<Reading>)
    requires Consistent(r)
    ensures o.Some? ==> Consistent(o.value)
    decreases |b|
  {
    if b == [] then Some(r)
    else if IsDigit(b[0]) then Read(Absorb(r, [b[0]]), b[1..])
    else if b[0] == '.' && !r.point then Read(r.(point := true), b[1..])
    else None
  }

  /** An unsigned decimal: digits with at most one point among them, and at
      least one digit. */
  function UnsignedValue(b: string): Option<real> {
    match Read(Start, b)
    case None => None
    case Some(r) =>
      if r.whole != [] || r.frac != [] then Some(Magnitude(r.whole, r.frac)) else None
  }

  /** `Number(t)`: `None` stands for NaN. */
  function ToNumber(t: string): Option<real> {
    if t == [] then Some(0.0)
    else
      match UnsignedValue(Unsigned(t))
      case None => None
      case Some(m) => Some(if SignOf(t) == Minus then -m else m)
  }

  // ---------------------------------------------------------------------
  // The numeric literals `ToNumber` accepts, as values that can be printed

  /** A written decimal number: sign, digits before the point, whether a
      point is written, digits after it. */
  datatype Literal = Literal(sign: Sign, whole: string, point: bool, frac: string) {
    function Digits(): Reading {
      Reading(whole, point, frac)
    }
  }

  predicate WellFormedLiteral(lit: Literal) {
    Consistent(lit.Digits()) && (lit.whole != [] || lit.frac != [])
  }

  function SignText(sign: Sign): string {
    match sign
    case NoSign => []
    case Plus => "+"
    case Minus => "-"
  }

  /** The characters a reading stands for. */
  function Spelling(r: Reading): string {
    r.whole + (if r.point then "." else []) + r.frac
  }

  function Render(lit: Literal): string {
    SignText(lit.sign) + Spelling(lit.Digits())
  }

  /** The number a literal denotes, read positionally. */
  function LiteralValue(lit: Literal): real
    requires WellFormedLiteral(lit)
  {
    var magnitude := Magnitude(lit.whole, lit.frac);
    if lit.sign == Minus then -magnitude else magnitude
  }

  /** Reading a run of digits adds them to the current side of the point. */
  lemma {:induction false} ReadDigits(r: Reading, ds: string, rest: string)
    requires Consistent(r) && AllDigits(ds)
    ensures Read(r, ds + rest) == Read(Absorb(r, ds), rest)
    decreases |ds|
  {
    if ds == [] {
      assert ds + rest == rest;
      assert r.whole + ds == r.whole && r.frac + ds == r.frac;
    } else {
      var r1 := Absorb(r, [ds[0]]);
      assert (ds + rest)[0] == ds[0] && (ds + rest)[1..] == ds[1..] + rest;
      assert Read(r, ds + rest) == Read(r1, ds[1..] + rest);
      ReadDigits(r1, ds[1..], rest);
      assert r.whole + [ds[0]] + ds[1..] == r.whole + ds;
      assert r.frac + [ds[0]] + ds[1..] == r.frac + ds;
    }
  }

  /** Reading the spelling of a literal's digits from the start gives them back. */
  lemma ReadSpelling(lit: Literal)
    requires WellFormedLiteral(lit)
    ensures Read(Start, Spelling(lit.Digits())) == Some(lit.Digits())
  {
    var tail := (if lit.point then "." else []) + lit.frac;
    assert Spelling(lit.Digits()) == lit.whole + tail;
    ReadDigits(Start, lit.whole, tail);
    var r1 := Reading(lit.whole, false, []);
    assert Absorb(Start, lit.whole) == r1;
    if lit.point {
      assert tail[0] == '.' && tail[1..] == lit.frac;
      assert Read(r1, tail) == Read(r1.(point := true), lit.frac);
      ReadDigits(r1.(point := true), lit.frac, []);
      assert lit.frac + [] == lit.frac && [] + lit.frac == lit.frac;
    } else {
      assert tail == [];
    }
  }

  /** What has been read is spelled by what was there before plus the input. */
  lemma {:induction false} ReadSpells(r: Reading, b: string)
    requires Consistent(r) && Read(r, b).Some?
    ensures Spelling(Read(r, b).value) == Spelling(r) + b
    decreases |b|
  {
    if b == [] {
      assert Spelling(r) + b == Spelling(r);
    } else {
      var r1 := if IsDigit(b[0]) then Absorb(r, [b[0]]) else r.(point := true);
      assert Read(r, b) == Read(r1, b[1..]);
      ReadSpells(r1, b[1..]);
      assert Spelling(r1) == Spelling(r) + [b[0]];
      assert b == [b[0]] + b[1..];
    }
  }

  /** The reading an accepted unsigned decimal is made of. */
  lemma UnsignedParts(b: string) returns (r: Reading)
    requires UnsignedValue(b).Some?
    ensures Consistent(r) && (r.whole != [] || r.frac != [])
    ensures Spelling(r) == b
    ensures UnsignedValue(b) == Some(Magnitude(r.whole, r.frac))
  {
    r := Read(Start, b).value;
    ReadSpells(Start, b);
    assert Spelling(Start) == [];
  }

  /** The first character of a printed literal tells its sign. */
  lemma SignOfRender(lit: Literal)
    requires WellFormedLiteral(lit)
    ensures Render(lit) != []
    ensures SignOf(Render(lit)) == lit.sign
    ensures Unsigned(Render(lit)) == Spelling(lit.Digits())
  {
    var body := Spelling(lit.Digits());
    var t := Render(lit);
    if lit.sign == NoSign {
      assert t == body;
      if lit.whole != [] {
        assert IsDigit(lit.whole[0]);
        assert t[0] == lit.whole[0];
      } else {
        assert lit.point;
        assert t[0] == '.';
      }
    } else {
      assert t[0] == SignText(lit.sign)[0];
      assert t[1..] == body;
    }
  }

  /** Converting a printed literal gives back the number it denotes. */
  lemma ToNumberOfRender(lit: Literal)
    requires WellFormedLiteral(lit)
    ensures ToNumber(Render(lit)) == Some(LiteralValue(lit))
  {
    SignOfRender(lit);
    ReadSpelling(lit);
  }

  /** Every non-empty token that converts is a printed literal, and its value
      is the one that literal denotes: together with `ToNumberOfRender`, the
      exact set of tokens that do not give NaN. */
  lemma ToNumberOnlyLiterals(t: string) returns (lit: Literal)
    requires t != [] && ToNumber(t).Some?
    ensures WellFormedLiteral(lit) && Render(lit) == t
    ensures ToNumber(t) == Some(LiteralValue(lit))
  {
    var r := UnsignedParts(Unsigned(t));
    lit := Literal(SignOf(t), r.whole, r.point, r.frac);
    assert lit.Digits() == r;
    SignedBody(t);
  }

  /** A token is its sign's text followed by the body the sign leaves. */
  lemma SignedBody(t: string)
    requires t != []
    ensures t == SignText(SignOf(t)) + Unsigned(t)
  {
    if SignOf(t) != NoSign {
      assert t == [t[0]] + t[1..];
    }
  }

  predicate NumeralChar(c: char) {
    IsDigit(c) || c == '.' || c == '-' || c == '+'
  }

  lemma RenderChars(lit: Literal)
    requires WellFormedLiteral(lit)
    ensures forall i :: 0 <= i < |Render(lit)| ==> NumeralChar(Render(lit)[i])
  {
    var sign := SignText(lit.sign);
    var point: string := if lit.point then "." else [];
    assert Render(lit) == sign + lit.whole + point + lit.frac;
    assert forall i :: 0 <= i < |sign| ==> NumeralChar(sign[i]);
    assert forall i :: 0 <= i < |point| ==> NumeralChar(point[i]);
    assert forall i :: 0 <= i < |lit.whole| ==> NumeralChar(lit.whole[i]);
    assert forall i :: 0 <= i < |lit.frac| ==> NumeralChar(lit.frac[i]);
  }

  /** A token holding any character other than a digit, a sign or a point
      converts to NaN. */
  lemma ToNumberRejectsForeignChar(t: string, i: nat)
    requires i < |t| && !NumeralChar(t[i])
    ensures ToNumber(t) == None
  {
    if ToNumber(t).Some? {
      var lit := ToNumberOnlyLiterals(t);
      RenderChars(lit);
      assert false;
    }
  }

  /** A run of digits converts to its integer value; no digits at all is the
      empty string, which converts to 0. */
  lemma ToNumberOfDigits(t: string)
    requires AllDigits(t)
    ensures ToNumber(t) == Some(DigitsValue(t) as real)
  {
    if t != [] {
      var lit := Literal(NoSign, t, false, []);
      assert Render(lit) == t;
      ToNumberOfRender(lit);
    }
  }

  /** A leading '-' negates the value of an unsigned token, and leaves NaN
      as NaN. */
  lemma ToNumberOfNegated(t: string)
    requires t != [] && t[0] != '-' && t[0] != '+'
    ensures ToNumber("-" + t) == match ToNumber(t)
                                 case None => None
                                 case Some(v) => Some(-v)
  {
    assert ("-" + t)[1..] == t;
  }
}
