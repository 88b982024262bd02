/** The calculator's unit-test cases and the malformed inputs, as facts about the model. */
module CalculatorCases {
  import opened Wrappers
  import opened Strings
  import opened Integers
  import opened Calculator
  import opened CalculatorProperties

  lemma EmptyStringReturnsZero()
    ensures Add("") == Ok(0)
  {
  }

  lemma SingleNumber()
    ensures Add("1") == Ok(1)
  {
    assert Join(Decimals([1]), ",") == "1";
    AddCommaJoined([1]);
  }

  lemma TwoNumbers()
    ensures Add("1,2") == Ok(3)
  {
    assert Join(Decimals([1, 2]), ",") == "1,2" by {
      assert Decimals([1, 2]) == ["1", "2"];
      assert ["1", "2"][1..] == ["2"];
    }
    AddCommaJoined([1, 2]);
  }

  lemma MultipleNumbersText()
    ensures Join(Decimals([1, 2, 3, 4]), ",") == "1,2,3,4"
  {
    assert Decimals([1, 2, 3, 4]) == ["1", "2", "3", "4"];
    assert ["1", "2", "3", "4"][1..] == ["2", "3", "4"];
    assert ["2", "3", "4"][1..] == ["3", "4"];
    assert ["3", "4"][1..] == ["4"];
  }

  lemma MultipleNumbers()
    ensures Add("1,2,3,4") == Ok(10)
  {
    MultipleNumbersText();
    AddCommaJoined([1, 2, 3, 4]);
  }

  lemma NewlineReplaced()
    ensures Replace("1\n2,3", '\n', ",") == "1,2,3"
  {
  }

  lemma NewlineJoined()
    ensures Join(Decimals([1, 2, 3]), ",") == "1,2,3"
  {
    assert Decimals([1, 2, 3]) == ["1", "2", "3"];
    assert ["1", "2", "3"][1..] == ["2", "3"];
    assert ["2", "3"][1..] == ["3"];
  }

  lemma NewlineAsDelimiter()
    ensures Add("1\n2,3") == Ok(6)
  {
    NewlineReplaced();
    NewlineJoined();
    StartsWithChars("1\n2,3");
    AddNewlineAsComma("1\n2,3");
    AddCommaJoined([1, 2, 3]);
  }

  lemma CustomDelimiter()
    ensures Add("//;\n1;2") == Ok(3)
  {
    assert "//" + ";" + "\n" + Join(Decimals([1, 2]), ";") == "//;\n1;2" by {
      assert Decimals([1, 2]) == ["1", "2"];
      assert ["1", "2"][1..] == ["2"];
    }
    AddJoined([1, 2], ";");
  }

  lemma NegativeNumbersJoined()
    ensures Join(Decimals([1, -2, 3, -4]), ",") == "1,-2,3,-4"
  {
    assert IntToString(-2) == "-2";
    assert IntToString(-4) == "-4";
    assert Decimals([1, -2, 3, -4]) == ["1", "-2", "3", "-4"];
    assert ["1", "-2", "3", "-4"][1..] == ["-2", "3", "-4"];
    assert ["-2", "3", "-4"][1..] == ["3", "-4"];
    assert ["3", "-4"][1..] == ["-4"];
  }

  lemma NegativeNumbersFiltered()
    ensures NegativesOf([1, -2, 3, -4]) == [-2, -4]
  {
    assert [1, -2, 3, -4][1..] == [-2, 3, -4];
    assert [-2, 3, -4][1..] == [3, -4];
    assert [3, -4][1..] == [-4];
  }

  lemma NegativeNumbersMessage()
    ensures NegativeMessage([-2, -4]) == "Negative numbers not allowed: -2, -4"
  {
    NegativeNumbersListing();
    MessageText([-2, -4], "-2, -4");
    MessageConcat();
  }

  lemma MessageConcat()
    ensures NegativePrefix + "-2, -4" == "Negative numbers not allowed: -2, -4"
  {
  }

  lemma MessageText(vs: seq<int>, listing: string)
    requires Join(Decimals(vs), ", ") == listing
    ensures NegativeMessage(vs) == NegativePrefix + listing
  {
  }

  lemma NegativeNumbersListing()
    ensures Join(Decimals([-2, -4]), ", ") == "-2, -4"
  {
    assert IntToString(-2) == "-2";
    assert IntToString(-4) == "-4";
    assert Decimals([-2, -4]) == ["-2", "-4"];
    assert ["-2", "-4"][1..] == ["-4"];
  }

  lemma NegativeNumbers()
    ensures Add("1,-2,3,-4") == Negatives([-2, -4])
    ensures NegativeMessage([-2, -4]) == "Negative numbers not allowed: -2, -4"
  {
    NegativeNumbersJoined();
    NegativeNumbersFiltered();
    NegativeNumbersMessage();
    assert [1, -2, 3, -4][1] < 0;
    AddCommaJoined([1, -2, 3, -4]);
  }

  /** A directive without a newline. */
  lemma MissingNewlineExample()
    ensures Add("//;") == FormatError(MissingNewline)
  {
    StartsWithChars("//;");
  }

  /** A directive that names no delimiter. */
  lemma EmptySeparatorExample()
    ensures Add("//\n1") == FormatError(EmptySeparator)
  {
    StartsWithChars("//\n1");
    AddEmptySeparatorIff("//\n1");
  }

  lemma InvalidLiteralTokens()
    ensures Tokens("-1,x", ",") == ["-1", "x"]
  {
    assert Join(["-1", "x"], ",") == "-1,x" by {
      assert ["-1", "x"][1..] == ["x"];
    }
    SplitJoin(["-1", "x"], ",");
    NonEmptyKeepsAll(["-1", "x"]);
  }

  lemma InvalidLiteralParse()
    ensures ParseAll(["-1", "x"]) == Failure("x")
  {
    assert ParseInt("-1") == Some(-1);
    assert ParseInt("x") == None;
    assert ["-1", "x"][1..] == ["x"];
  }

  /** A token that is not a number fails even when a negative number comes before it. */
  lemma InvalidLiteralExample()
    ensures Add("-1,x") == FormatError(InvalidLiteral("x"))
  {
    StartsWithChars("-1,x");
    InvalidLiteralTokens();
    InvalidLiteralParse();
    AddDefault("-1,x");
  }

  lemma OverlappingFirstCut()
    ensures Split("1111", "11") == [""] + Split("11", "11")
  {
    assert "1111"[2..] == "11";
    assert OccursAt("1111", "11", 0);
    FindAt("1111", "11", 0);
    FindBound("1111", "11", 0);
    SplitStep("1111", "11", 0);
  }

  lemma OverlappingSecondCut()
    ensures Split("11", "11") == ["", ""]
  {
    assert "11"[2..] == "";
    assert OccursAt("11", "11", 0);
    FindAt("11", "11", 0);
    FindBound("11", "11", 0);
    SplitStep("11", "11", 0);
    FindNone("", "11");
  }

  lemma OverlappingBody()
    ensures "//" + "11" + "\n" + "1\n1" == "//11\n1\n1"
    ensures Replace("1\n1", '\n', "11") == "1111"
  {
  }

  lemma OverlappingPieces()
    ensures Split("1111", "11") == ["", "", ""]
  {
    OverlappingFirstCut();
    OverlappingSecondCut();
    assert [""] + ["", ""] == ["", "", ""];
  }

  lemma OverlappingTokens()
    ensures Tokens("1\n1", "11") == []
  {
    OverlappingBody();
    OverlappingPieces();
    assert NonEmpty(["", "", ""]) == [] by {
      assert ["", "", ""][1..] == ["", ""];
      assert ["", ""][1..] == [""];
    }
  }

  lemma OverlappingDelimiter()
    ensures Add("//11\n1\n1") == Ok(0)
  {
    OverlappingBody();
    OverlappingTokens();
    AddCustom("11", "1\n1");
  }

  lemma LongDelimiterCuts()
    ensures Split("21", "11") == ["21"]
    ensures Split("2111", "11") == ["2", "1"]
  {
    assert "21"[..2][0] == '2';
    assert "21"[1..] == "1";
    assert Find("21", "11") == None;
    assert "2111"[..2][0] == '2';
    assert "2111"[1..] == "111";
    assert "111"[..2] == "11";
    assert Find("2111", "11") == Some(1);
    FindBound("2111", "11", 1);
    SplitStep("2111", "11", 1);
    assert "2111"[..1] == "2" && "2111"[3..] == "1";
    assert Find("1", "11") == None;
  }

  /** A body without newlines whose pieces are all non-empty has those pieces as its tokens. */
  lemma TokensOfPieces(body: string, d: string, pieces: seq<string>)
    requires d != [] && '\n' !in body && Split(body, d) == pieces
    requires forall k :: 0 <= k < |pieces| ==> pieces[k] != []
    ensures Tokens(body, d) == pieces
  {
    NonEmptyKeepsAll(pieces);
  }

  lemma LongDelimiterShortTokens()
    ensures Tokens("21", "11") == ["21"]
  {
    LongDelimiterCuts();
    assert '\n' !in "21";
    TokensOfPieces("21", "11", ["21"]);
  }

  lemma LongDelimiterLongTokens()
    ensures Tokens("2111", "11") == ["2", "1"]
  {
    LongDelimiterCuts();
    assert '\n' !in "2111";
    TokensOfPieces("2111", "11", ["2", "1"]);
  }

  lemma LongDelimiterSums()
    ensures Evaluate(["21"]) == Ok(21)
    ensures Evaluate(["2", "1"]) == Ok(3)
  {
    assert ParseInt("21") == Some(21);
    assert ParseInt("2") == Some(2) && ParseInt("1") == Some(1);
    assert ParseAll([]) == Success([]);
    ParseAllCons("21", [], 21, []);
    assert ["21"] + [] == ["21"] && [21] + [] == [21];
    ParseAllCons("1", [], 1, []);
    assert ["1"] + [] == ["1"] && [1] + [] == [1];
    ParseAllCons("2", ["1"], 2, [1]);
    assert ["2"] + ["1"] == ["2", "1"] && [2] + [1] == [2, 1];
    assert [2, 1][1..] == [1];
  }

  lemma LongDelimiterTexts()
    ensures "//" + "11" + "\n" + "21" == "//11\n21"
    ensures "//" + "11" + "\n" + "2111" == "//11\n2111"
  {
  }

  /**
   * A trailing delimiter is harmless only when the delimiter has one
   * character: with `11`, appending it to `21` re-cuts the text as `2`, `11`, `1`.
   */
  lemma LongDelimiterTrailing()
    ensures Add("//11\n21") == Ok(21)
    ensures Add("//11\n2111") == Ok(3)
  {
    LongDelimiterTexts();
    LongDelimiterShortTokens();
    LongDelimiterLongTokens();
    LongDelimiterSums();
    AddCustom("11", "21");
    AddCustom("11", "2111");
  }
}
