/** The examples of the operations' unit tests, as lemmas about the model:
    each one pins a helper of `operations.py` to the value its test expects. */
module KnownValues {
  import opened Wrappers
  import opened Digits
  import opened Errors
  import opened DigitOps
  import Operations

  /** A decimal literal's value, read off the text `str` prints for it. */
  lemma ValueOf(n: nat, s: string)
    requires NatStr(n) == s
    ensures AllDigits(s) && DigitVal(s) == n
  {
    NatStrValue(n);
  }

  /** `int` reads back what `str` prints. */
  lemma StrOf(n: int, s: string)
    requires Str(n) == s
    ensures Parse(s) == Some(n)
  {
    ParseStr(n);
  }

  /** One more digit on the text of a literal. */
  lemma NatStrSnoc(n: nat, s: string, t: string)
    requires n >= 10 && NatStr(n / 10) == s && t == s + [CharOf(n % 10)]
    ensures NatStr(n) == t
  {
  }

  lemma Text100()
    ensures NatStr(100) == "100"
  {
    assert NatStr(1) == "1";
    NatStrSnoc(10, "1", "10");
    NatStrSnoc(100, "10", "100");
  }

  lemma Text123()
    ensures NatStr(123) == "123"
  {
    assert NatStr(1) == "1";
    NatStrSnoc(12, "1", "12");
    NatStrSnoc(123, "12", "123");
  }

  lemma Text129()
    ensures NatStr(129) == "129"
  {
    assert NatStr(1) == "1";
    NatStrSnoc(12, "1", "12");
    NatStrSnoc(129, "12", "129");
  }

  lemma Text135()
    ensures NatStr(135) == "135"
  {
    assert NatStr(1) == "1";
    NatStrSnoc(13, "1", "13");
    NatStrSnoc(135, "13", "135");
  }

  lemma Text234()
    ensures NatStr(234) == "234"
  {
    assert NatStr(2) == "2";
    NatStrSnoc(23, "2", "23");
    NatStrSnoc(234, "23", "234");
  }

  lemma Text235()
    ensures NatStr(235) == "235"
  {
    assert NatStr(2) == "2";
    NatStrSnoc(23, "2", "23");
    NatStrSnoc(235, "23", "235");
  }

  lemma Text255()
    ensures NatStr(255) == "255"
  {
    assert NatStr(2) == "2";
    NatStrSnoc(25, "2", "25");
    NatStrSnoc(255, "25", "255");
  }

  lemma Text321()
    ensures NatStr(321) == "321"
  {
    assert NatStr(3) == "3";
    NatStrSnoc(32, "3", "32");
    NatStrSnoc(321, "32", "321");
  }

  lemma Text345()
    ensures NatStr(345) == "345"
  {
    assert NatStr(3) == "3";
    NatStrSnoc(34, "3", "34");
    NatStrSnoc(345, "34", "345");
  }

  lemma Text351()
    ensures NatStr(351) == "351"
  {
    assert NatStr(3) == "3";
    NatStrSnoc(35, "3", "35");
    NatStrSnoc(351, "35", "351");
  }

  lemma Text375()
    ensures NatStr(375) == "375"
  {
    assert NatStr(3) == "3";
    NatStrSnoc(37, "3", "37");
    NatStrSnoc(375, "37", "375");
  }

  lemma Text500()
    ensures NatStr(500) == "500"
  {
    assert NatStr(5) == "5";
    NatStrSnoc(50, "5", "50");
    NatStrSnoc(500, "50", "500");
  }

  lemma Text513()
    ensures NatStr(513) == "513"
  {
    assert NatStr(5) == "5";
    NatStrSnoc(51, "5", "51");
    NatStrSnoc(513, "51", "513");
  }

  lemma Text991()
    ensures NatStr(991) == "991"
  {
    assert NatStr(9) == "9";
    NatStrSnoc(99, "9", "99");
    NatStrSnoc(991, "99", "991");
  }

  lemma Text1234()
    ensures NatStr(1234) == "1234"
  {
    assert NatStr(1) == "1";
    NatStrSnoc(12, "1", "12");
    NatStrSnoc(123, "12", "123");
    NatStrSnoc(1234, "123", "1234");
  }

  lemma Text2300()
    ensures NatStr(2300) == "2300"
  {
    assert NatStr(2) == "2";
    NatStrSnoc(23, "2", "23");
    NatStrSnoc(230, "23", "230");
    NatStrSnoc(2300, "230", "2300");
  }

  lemma Text2331()
    ensures NatStr(2331) == "2331"
  {
    assert NatStr(2) == "2";
    NatStrSnoc(23, "2", "23");
    NatStrSnoc(233, "23", "233");
    NatStrSnoc(2331, "233", "2331");
  }

  lemma Text6123()
    ensures NatStr(6123) == "6123"
  {
    assert NatStr(6) == "6";
    NatStrSnoc(61, "6", "61");
    NatStrSnoc(612, "61", "612");
    NatStrSnoc(6123, "612", "6123");
  }

  lemma Text6677()
    ensures NatStr(6677) == "6677"
  {
    assert NatStr(6) == "6";
    NatStrSnoc(66, "6", "66");
    NatStrSnoc(667, "66", "667");
    NatStrSnoc(6677, "667", "6677");
  }

  lemma Text12345()
    ensures NatStr(12345) == "12345"
  {
    assert NatStr(1) == "1";
    NatStrSnoc(12, "1", "12");
    NatStrSnoc(123, "12", "123");
    NatStrSnoc(1234, "123", "1234");
    NatStrSnoc(12345, "1234", "12345");
  }

  lemma Text12995()
    ensures NatStr(12995) == "12995"
  {
    assert NatStr(1) == "1";
    NatStrSnoc(12, "1", "12");
    NatStrSnoc(129, "12", "129");
    NatStrSnoc(1299, "129", "1299");
    NatStrSnoc(12995, "1299", "12995");
  }

  lemma Text255255()
    ensures NatStr(255255) == "255255"
  {
    assert NatStr(2) == "2";
    NatStrSnoc(25, "2", "25");
    NatStrSnoc(255, "25", "255");
    NatStrSnoc(2552, "255", "2552");
    NatStrSnoc(25525, "2552", "25525");
    NatStrSnoc(255255, "25525", "255255");
  }

  lemma Text5115()
    ensures NatStr(5115) == "5115"
  {
    assert NatStr(5) == "5";
    NatStrSnoc(51, "5", "51");
    NatStrSnoc(511, "51", "511");
    NatStrSnoc(5115, "511", "5115");
  }

  lemma Text5335()
    ensures NatStr(5335) == "5335"
  {
    assert NatStr(5) == "5";
    NatStrSnoc(53, "5", "53");
    NatStrSnoc(533, "53", "533");
    NatStrSnoc(5335, "533", "5335");
  }

  /** One more digit on a digit sum. */
  lemma SumSnoc(s: string, t: string, c: char)
    requires AllDigits(s) && IsDigit(c) && t == s + [c]
    ensures AllDigits(t) && SumOfDigits(t) == SumOfDigits(s) + DigitOf(c)
  {
    assert t[..|t| - 1] == s;
  }

  lemma ReverseValues()
    ensures Reverse(123) == 321
    ensures Reverse(-123) == -321
  {
    Text123();
    ReversedThree('1', '2', '3');
    Text321();
    ValueOf(321, "321");
  }

  lemma MirrorValues()
    ensures Mirror(123) == Ok(123321)
    ensures Mirror(-123) == Ok(-123321)
    ensures Mirror(20) == Ok(2002)
  {
    MirrorAbs123();
    MirrorAbs20();
  }

  lemma MirrorAbs123()
    ensures MirrorAbs(123) == Ok(123321)
  {
    Text123();
    Text321();
    ReversedThree('1', '2', '3');
    assert ReverseAsStr(123) == "321";
    ValueOf(123, "123");
    ValueOf(321, "321");
    assert Pow10(3) == 1000;
  }

  lemma MirrorAbs20()
    ensures MirrorAbs(20) == Ok(2002)
  {
    assert DigitVal("02") == 2 && DigitVal("20") == 20;
    assert Pow10(2) == 100;
    assert NatStr(20) == "20";
    ReversedTwo('2', '0');
    assert ReverseAsStr(20) == "02";
  }

  /** The reversed digits, read back as a number. */
  lemma ReverseOf(m: nat, t: string, v: nat)
    requires Reversed(NatStr(m)) == t && NatStr(v) == t
    ensures ReverseAbs(m) == v
  {
    NatStrValue(v);
  }

  lemma ReversedTwo<T>(a: T, b: T)
    ensures Reversed([a, b]) == [b, a]
  {
    assert [a, b][1..] == [b];
    assert [b][1..] == [];
  }

  lemma ReversedThree<T>(a: T, b: T, c: T)
    ensures Reversed([a, b, c]) == [c, b, a]
  {
    assert [a, b, c][1..] == [b, c];
    ReversedTwo(b, c);
  }

  lemma ReplaceInsideText()
    ensures ReplaceAll("-12345", "34", "99") == "-12995"
  {
    assert ReplaceAll("5", "34", "99") == "5";
    assert ReplaceAll("345", "34", "99") == "995";
    assert ReplaceAll("2345", "34", "99") == "2995";
    assert ReplaceAll("12345", "34", "99") == "12995";
  }

  lemma NegativeTexts()
    ensures Str(-12345) == "-12345"
    ensures Str(-12995) == "-12995"
  {
    Text12345();
    Text12995();
  }

  /** The sign is kept and the pattern replaced in the digits. */
  lemma ReplaceInside()
    ensures Replace(-12345, "34", "99") == Ok(-12995)
  {
    NegativeTexts();
    ReplaceInsideText();
    StrOf(-12995, "-12995");
  }

  lemma ReplaceLeadingZeroText()
    ensures ReplaceAll("12345", "12", "0") == "0" + "345"
  {
    assert ReplaceAll("345", "12", "0") == "345" by {
      assert ReplaceAll("45", "12", "0") == "45";
    }
  }

  /** A replacement that leaves a leading zero: `int` drops it. */
  lemma ReplaceLeadingZero()
    ensures Replace(12345, "12", "0") == Ok(345)
  {
    Text12345();
    assert Str(12345) == "12345";
    ReplaceLeadingZeroText();
    LeadingZeroValue();
    ReplaceOf(12345, "12", "0", "0" + "345", 345);
  }

  lemma LeadingZeroValue()
    ensures Parse("0" + "345") == Some(345)
  {
    ValueOf(345, "345");
    DigitValConcat("0", "345");
    assert |"345"| == 3 && Pow10(3) == 1000;
  }

  /** `replace` is `int` of the replaced text. */
  lemma ReplaceOf(value: int, oldText: string, newText: string, t: string, v: int)
    requires ReplaceAll(Str(value), oldText, newText) == t && Parse(t) == Some(v)
    ensures Replace(value, oldText, newText) == Ok(v)
  {
  }

  lemma ReplaceAtEndText()
    ensures ReplaceAll("2331", "31", "00") == "2300"
  {
    assert ReplaceAll("1", "31", "00") == "1";
    assert ReplaceAll("31", "31", "00") == "00";
    assert ReplaceAll("331", "31", "00") == "300";
  }

  lemma ReplaceAtEnd()
    ensures Replace(2331, "31", "00") == Ok(2300)
  {
    Text2331();
    ReplaceAtEndText();
    Text2300();
    StrOf(2300, "2300");
  }

  lemma DivideValues()
    ensures DivideBy(15, 3) == Ok(5)
    ensures DivideBy(-15, 3) == Ok(-5)
    ensures DivideBy(15, -3) == Ok(-5)
    ensures DivideBy(-15, -3) == Ok(5)
    ensures DivideBy(10, 3) == Err(InvalidDivision)
  {
  }

  lemma CircularShiftRightValues()
    ensures CircularShiftRight(351) == 135
    ensures CircularShiftRight(-351) == -135
    ensures CircularShiftRight(135) == 513
  {
    Text351();
    assert "351"[..2] == "35";
    Text135();
    ValueOf(135, ['1'] + "35");
    assert "135"[..2] == "13";
    Text513();
    ValueOf(513, ['5'] + "13");
  }

  /** The trailing zero moves to the front, where `int` drops it. */
  lemma CircularShiftRightZero()
    ensures CircularShiftRight(500) == 50
  {
    Text500();
    assert "500"[..2] == "50";
    ValueOf(50, "50");
    DigitValConcat("0", "50");
  }

  lemma CircularShiftLeftValues()
    ensures CircularShiftLeft(351) == 513
    ensures CircularShiftLeft(-351) == -513
    ensures CircularShiftLeft(513) == 135
  {
    Text351();
    assert "351"[1..] == "51";
    Text513();
    ValueOf(513, "51" + ['3']);
    assert "513"[1..] == "13";
    Text135();
    ValueOf(135, "13" + ['5']);
  }

  lemma CircularShiftLeftZeros()
    ensures CircularShiftLeft(500) == 5
  {
    Text500();
    assert "500"[1..] == "00";
    ValueOf(5, "5");
    DigitValConcat("00", "5");
    assert "00" + "5" == "005";
  }

  lemma ShiftLeftValues()
    ensures ShiftLeft(351) == Ok(35)
    ensures ShiftLeft(135) == Ok(13)
    ensures ShiftLeft(-351) == Ok(-35)
  {
    ShiftLeftAbsValue(351);
    ShiftLeftAbsValue(135);
  }

  lemma SumDigitsValue()
    ensures SumDigits(12345) == 15
  {
    Text12345();
    SumSnoc("", "1", '1');
    SumSnoc("1", "12", '2');
    SumSnoc("12", "123", '3');
    SumSnoc("123", "1234", '4');
    SumSnoc("1234", "12345", '5');
  }

  lemma SumDigitsRepeated()
    ensures SumDigits(6677) == 26
  {
    Text6677();
    SumSnoc("", "6", '6');
    SumSnoc("6", "66", '6');
    SumSnoc("66", "667", '7');
    SumSnoc("667", "6677", '7');
  }

  lemma AddDigitsValues()
    ensures AddDigits(123, Some(25)) == Ok(12325)
    ensures AddDigits(0, Some(5)) == Ok(5)
    ensures AddDigits(5, Some(0)) == Ok(50)
  {
    AddDigitsValue(123, 25);
    AddDigitsValue(0, 5);
    AddDigitsValue(5, 0);
  }

  lemma Inv10Digits()
    ensures Inv10EachDigit(0) == 0
    ensures Inv10EachDigit(1) == 9
    ensures Inv10EachDigit(6) == 4
  {
  }

  lemma Inv10Number()
    ensures Inv10EachDigit(13) == 97
    ensures Inv10EachDigit(-13) == -97
  {
    assert NatStr(13) == "13" && NatStr(97) == "97";
    assert InvText("13") == "97";
    Inv10Of(13, "97", 97);
  }

  lemma Inv10Zero()
    ensures Inv10EachDigit(30) == 70
  {
    assert NatStr(30) == "30" && NatStr(70) == "70";
    assert InvText("30") == "70";
    Inv10Of(30, "70", 70);
  }

  /** The inverted digits, read back as a number. */
  lemma Inv10Of(m: nat, t: string, v: nat)
    requires InvText(NatStr(m)) == t && NatStr(v) == t
    ensures Inv10Abs(m) == v
  {
    Inv10Text(m);
    NatStrValue(Inv10Abs(m));
    NatStrValue(v);
  }


  /** One step of the repetition in warp. */
  lemma WarpStep(number: int, enter: nat, exit: nat, out: int)
    requires exit <= enter
    requires WarpPass(number, enter, exit) == Ok(out)
    ensures out == number ==> Warp(number, enter, exit) == Ok(number)
    ensures out != number ==> Warp(number, enter, exit) == Warp(out, enter, exit)
  {
  }

  lemma WarpOnePass()
    ensures Warp(1234, 3, 0) == Ok(235)
  {
    Text1234();
    WarpPassSplit(1234, 3, 0, "1", "234");
    Text234();
    ValueOf(234, "234");
    SumSnoc("", "1", '1');
    WarpStep(1234, 3, 0, 235);
    Text235();
    WarpPassUnchanged(235, 3, 0);
    WarpStep(235, 3, 0, 235);
  }

  lemma WarpLeadingDigit()
    ensures Warp(6123, 3, 0) == Ok(129)
  {
    Text6123();
    WarpPassSplit(6123, 3, 0, "6", "123");
    Text123();
    ValueOf(123, "123");
    SumSnoc("", "6", '6');
    WarpStep(6123, 3, 0, 129);
    Text129();
    WarpPassUnchanged(129, 3, 0);
    WarpStep(129, 3, 0, 129);
  }

  lemma WarpFirstPass()
    ensures WarpPass(991, 2, 0) == Ok(100)
  {
    Text991();
    WarpPassSplit(991, 2, 0, "9", "91");
    ValueOf(91, "91");
    SumSnoc("", "9", '9');
  }

  lemma WarpSecondPass()
    ensures WarpPass(100, 2, 0) == Ok(1)
  {
    Text100();
    WarpPassSplit(100, 2, 0, "1", "00");
    SumSnoc("", "1", '1');
    ValueOf(0, "0");
    DigitValConcat("0", "0");
    assert "0" + "0" == "00";
  }

  /** Two passes are needed: 991 becomes 100, which becomes 1. */
  lemma WarpTwoPasses()
    ensures Warp(991, 2, 0) == Ok(1)
  {
    WarpFirstPass();
    WarpStep(991, 2, 0, 100);
    WarpSecondPass();
    WarpStep(100, 2, 0, 1);
    WarpPassUnchanged(1, 2, 0);
    WarpStep(1, 2, 0, 1);
  }

  lemma WarpShiftedPass()
    ensures WarpPass(255255, 3, 1) == Ok(375)
  {
    Text255255();
    WarpPassSplit(255255, 3, 1, "255", "255");
    Text255();
    ValueOf(255, "255");
    SumSnoc("", "2", '2');
    SumSnoc("2", "25", '5');
    SumSnoc("25", "255", '5');
  }

  /** An exit portal at index 1 adds the warped digits in the tens. */
  lemma WarpShiftedExit()
    ensures Warp(255255, 3, 1) == Ok(375)
  {
    WarpShiftedPass();
    WarpStep(255255, 3, 1, 375);
    WarpShiftedFixed();
  }

  lemma WarpShiftedFixed()
    ensures Warp(375, 3, 1) == Ok(375)
  {
    Text375();
    WarpPassUnchanged(375, 3, 1);
    WarpStep(375, 3, 1, 375);
  }

  /** The meta-button test: a held "sum with 4" becomes "sum with 13" after
      a press of [+]9, and the press itself leaves the value alone. */
  lemma MetaButtonValues()
    ensures Operations.Apply(Operations.SumX(4), 15) == Ok(19)
    ensures Operations.IncrementHeld([Operations.SumX(4)], [0], 9) == [Operations.SumX(13)]
    ensures Operations.Apply(Operations.ModifyButtonsAddValue(9), 99999) == Ok(99999)
    ensures Operations.Apply(Operations.SumX(13), 20) == Ok(33)
  {
    assert multiset([0])[0] == 1;
  }
}
