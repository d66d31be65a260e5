/** The calculator's documented cases, each derived from the general
    lemmas. An accepted input is built up token by token: a token on its own
    sums to the number it spells (`SumOfLiteral`), joining accepted inputs
    with a separator adds their sums (`SumOfJoined`), and the choice of
    separator does not matter (`SumUpToSeparators`). A rejected string is
    shown not to be well separated, so `SumOutcome` makes it fail.

    Each `...Layout` lemma only states where the first separator cuts a
    literal string. Proving that fact apart from the sum keeps the literal's
    characters out of the larger proof, which otherwise goes beyond the
    solver's resource limit. */
module CalculatorExamples {
  import opened NumberConversion
  import opened Calculator

  // ---------------------------------------------------------------------
  // Single tokens

  lemma SumOfFive()
    ensures Sum(Str("5")) == Ok(5.0)
  {
    var lit := Literal(NoSign, "5", false, []);
    assert Render(lit) == "5";
    assert LiteralValue(lit) == 5.0 by {
      assert "5"[..0] == [];
    }
    SumOfLiteral(lit);
  }

  lemma SumOfTwelve()
    ensures Sum(Str("12")) == Ok(12.0)
  {
    var lit := Literal(NoSign, "12", false, []);
    assert Render(lit) == "12";
    assert LiteralValue(lit) == 12.0 by {
      assert "12"[..1] == "1";
      assert "1"[..0] == [];
    }
    SumOfLiteral(lit);
  }

  lemma SumOfThirtyFour()
    ensures Sum(Str("34")) == Ok(34.0)
  {
    var lit := Literal(NoSign, "34", false, []);
    assert Render(lit) == "34";
    assert LiteralValue(lit) == 34.0 by {
      assert "34"[..1] == "3";
      assert "3"[..0] == [];
    }
    SumOfLiteral(lit);
  }

  lemma SumOfThreePointFour()
    ensures Sum(Str("3.4")) == Ok(3.4)
  {
    var lit := Literal(NoSign, "3", true, "4");
    assert Render(lit) == "3.4" by {
      assert Spelling(lit.Digits()) == "3.4";
    }
    assert LiteralValue(lit) == 3.4 by {
      assert "3"[..0] == [];
      assert "4"[1..] == [];
      assert Fraction("4") == 0.4;
    }
    SumOfLiteral(lit);
  }

  lemma SumOfMinusOne()
    ensures Sum(Str("-1")) == Ok(-1.0)
  {
    var lit := Literal(Minus, "1", false, []);
    assert Render(lit) == "-1" by {
      assert SignText(Minus) == "-";
    }
    assert LiteralValue(lit) == -1.0 by {
      assert "1"[..0] == [];
    }
    SumOfLiteral(lit);
  }

  lemma SumOfMinusFortyFive()
    ensures Sum(Str("-45")) == Ok(-45.0)
  {
    var lit := Literal(Minus, "45", false, []);
    assert Render(lit) == "-45" by {
      assert SignText(Minus) == "-";
    }
    assert LiteralValue(lit) == -45.0 by {
      assert "45"[..1] == "4";
      assert "4"[..0] == [];
    }
    SumOfLiteral(lit);
  }

  lemma SumOfMinusOnePointFour()
    ensures Sum(Str("-1.4")) == Ok(-1.4)
  {
    var lit := Literal(Minus, "1", true, "4");
    assert Render(lit) == "-1.4" by {
      assert SignText(Minus) == "-";
      assert Spelling(lit.Digits()) == "1.4";
    }
    assert LiteralValue(lit) == -1.4 by {
      assert "1"[..0] == [];
      assert "4"[1..] == [];
      assert Fraction("4") == 0.4;
    }
    SumOfLiteral(lit);
  }

  // ---------------------------------------------------------------------
  // Accepted inputs

  lemma SumOfEmptyString()
    ensures Sum(Str("")) == Ok(0.0)
  {
    SumOfEmpty();
  }

  lemma SumOfTwoByCommaLayout()
    ensures "12,34" == "12" + [','] + "34"
  {
  }

  lemma SumOfTwoByComma()
    ensures Sum(Str("12,34")) == Ok(46.0)
  {
    SumOfTwoByCommaLayout();
    SumOfTwelve();
    SumOfThirtyFour();
    SumOfJoined("12", ',', "34");
  }

  lemma SumOfTwoByNewLine()
    ensures Sum(Str("12\n34")) == Ok(46.0)
  {
    assert SameUpToSeparators("12,34", "12\n34");
    SumOfTwoByComma();
    SumUpToSeparators("12,34", "12\n34");
  }

  lemma SumOfNegativePairLayout()
    ensures "-45,-1.4" == "-45" + [','] + "-1.4"
  {
  }

  lemma SumOfNegativePair()
    ensures Sum(Str("-45,-1.4")) == Ok(-46.4)
  {
    SumOfNegativePairLayout();
    SumOfMinusFortyFive();
    SumOfMinusOnePointFour();
    SumOfJoined("-45", ',', "-1.4");
  }

  lemma SumOfNegativesByCommaLayout()
    ensures "-1,-45,-1.4" == "-1" + [','] + "-45,-1.4"
  {
  }

  lemma SumOfNegativesByComma()
    ensures Sum(Str("-1,-45,-1.4")) == Ok(-47.4)
  {
    SumOfNegativesByCommaLayout();
    SumOfMinusOne();
    SumOfNegativePair();
    SumOfJoined("-1", ',', "-45,-1.4");
  }

  lemma SumOfNegativesByNewLine()
    ensures Sum(Str("-1\n-45\n-1.4")) == Ok(-47.4)
  {
    assert SameUpToSeparators("-1,-45,-1.4", "-1\n-45\n-1.4");
    SumOfNegativesByComma();
    SumUpToSeparators("-1,-45,-1.4", "-1\n-45\n-1.4");
  }

  lemma SumOfPositiveAndNegativesLayout()
    ensures "3.4,-45,-1.4" == "3.4" + [','] + "-45,-1.4"
  {
  }

  lemma SumOfPositiveAndNegatives()
    ensures Sum(Str("3.4,-45,-1.4")) == Ok(-43.0)
  {
    SumOfPositiveAndNegativesLayout();
    SumOfThreePointFour();
    SumOfNegativePair();
    SumOfJoined("3.4", ',', "-45,-1.4");
  }

  lemma SumOfMixedByCommaLayout()
    ensures "12,3.4,-45,-1.4" == "12" + [','] + "3.4,-45,-1.4"
  {
  }

  lemma SumOfMixedByComma()
    ensures Sum(Str("12,3.4,-45,-1.4")) == Ok(-31.0)
  {
    SumOfMixedByCommaLayout();
    SumOfTwelve();
    SumOfPositiveAndNegatives();
    SumOfJoined("12", ',', "3.4,-45,-1.4");
  }

  lemma SumOfDecimalAndNegativesLayout()
    ensures "3.4,-1,-45,-1.4" == "3.4" + [','] + "-1,-45,-1.4"
  {
  }

  lemma SumOfDecimalAndNegatives()
    ensures Sum(Str("3.4,-1,-45,-1.4")) == Ok(-44.0)
  {
    SumOfDecimalAndNegativesLayout();
    SumOfThreePointFour();
    SumOfNegativesByComma();
    SumOfJoined("3.4", ',', "-1,-45,-1.4");
  }

  lemma SumOfFiveMixedByCommaLayout()
    ensures "12,3.4,-1,-45,-1.4" == "12" + [','] + "3.4,-1,-45,-1.4"
  {
  }

  lemma SumOfFiveMixedByComma()
    ensures Sum(Str("12,3.4,-1,-45,-1.4")) == Ok(-32.0)
  {
    SumOfFiveMixedByCommaLayout();
    SumOfTwelve();
    SumOfDecimalAndNegatives();
    SumOfJoined("12", ',', "3.4,-1,-45,-1.4");
  }

  lemma SumOfMixedSeparators()
    ensures Sum(Str("12,3.4\n-1,-45\n-1.4")) == Ok(-32.0)
  {
    assert SameUpToSeparators("12,3.4,-1,-45,-1.4", "12,3.4\n-1,-45\n-1.4");
    SumOfFiveMixedByComma();
    SumUpToSeparators("12,3.4,-1,-45,-1.4", "12,3.4\n-1,-45\n-1.4");
  }

  lemma SumOfMixedByNewLine()
    ensures Sum(Str("12\n3.4\n-1\n-45\n-1.4")) == Ok(-32.0)
  {
    assert SameUpToSeparators("12,3.4,-1,-45,-1.4", "12\n3.4\n-1\n-45\n-1.4");
    SumOfFiveMixedByComma();
    SumUpToSeparators("12,3.4,-1,-45,-1.4", "12\n3.4\n-1\n-45\n-1.4");
  }

  // ---------------------------------------------------------------------
  // Rejected inputs

  /** A number, an object, an array, a boolean, null and undefined are all
      the one non-string input. */
  lemma SumOfNonStringInputs()
    ensures Sum(Other) == Err(InvalidInput)
    ensures Message(Sum(Other).error) == "Not a valid input"
  {
    SumOfNonString();
  }

  lemma SumRejectsAdjacentSeparators()
    ensures Sum(Str("12,\n34")) == Err(InvalidInput)
  {
    var s := "12,\n34";
    assert IsSeparator(s[2]) && IsSeparator(s[3]);
    SumOutcome(s);
  }

  lemma SumRejectsAdjacentSeparatorsBetweenDecimals()
    ensures Sum(Str("-1,\n-45,\n-1.4")) == Err(InvalidInput)
  {
    var s := "-1,\n-45,\n-1.4";
    assert IsSeparator(s[2]) && IsSeparator(s[3]);
    SumOutcome(s);
  }

  /** The stray '!' alone would only turn "12!" into NaN (see
      `SumDropsStrayChar`); it is the empty token between ',' and '\n' that
      makes the input fail. */
  lemma SumRejectsAdjacentSeparatorsAfterStrayChar()
    ensures Sum(Str("12!\n-45,\n-1.4")) == Err(InvalidInput)
  {
    var s := "12!\n-45,\n-1.4";
    assert IsSeparator(s[7]) && IsSeparator(s[8]);
    SumOutcome(s);
  }

  lemma SumDropsStrayCharLayout()
    ensures "12!\n-45\n-1.4" == "12!" + ['\n'] + "-45\n-1.4"
  {
  }

  /** The same input with the empty token removed is accepted: "12!" is not
      a number, so it is dropped and only -45 and -1.4 are added. */
  lemma SumDropsStrayChar()
    ensures Sum(Str("12!\n-45\n-1.4")) == Ok(-46.4)
  {
    SumDropsStrayCharLayout();
    ToNumberRejectsForeignChar("12!", 2);
    SumOfNonNumber("12!");
    assert SameUpToSeparators("-45,-1.4", "-45\n-1.4");
    SumOfNegativePair();
    SumUpToSeparators("-45,-1.4", "-45\n-1.4");
    SumOfJoined("12!", '\n', "-45\n-1.4");
  }
}
