/**
 * Worked messages for parseTransactionFromSMS: what it gives for typical
 * bank messages, including lakh grouping and the colon the pattern lets in.
 */
module SmsExamples {
  import opened Wrappers
  import opened Text
  import opened Expenses
  import opened SmsParser
  import opened SmsParserFacts
  import opened SmsNumerals

  /**
   * A word is not mentioned in a message when its first two letters never
   * stand next to each other there, in any case.
   */
  lemma NotMentionedByPair(s: string, w: string)
    requires |w| >= 2
    requires forall i :: 0 <= i < |s| - 1 ==> !(Lower(s[i]) == Lower(w[0]) && Lower(s[i + 1]) == Lower(w[1]))
    ensures !Mentions(s, w)
  {
    forall i: nat ensures !MatchesAt(s, i, w) {
      if i + |w| <= |s| {
        assert !(Lower(s[i + 0]) == Lower(w[0]) && Lower(s[i + 1]) == Lower(w[1]));
      }
    }
  }

  /** None of the credit keywords occurs in s. */
  lemma NoCreditKeyword(s: string)
    requires forall i :: 0 <= i < |s| - 1 ==> !(Lower(s[i]) == 'c' && Lower(s[i + 1]) == 'r')
    requires forall i :: 0 <= i < |s| - 1 ==> !(Lower(s[i]) == 'r' && Lower(s[i + 1]) == 'e')
    ensures forall c :: c in CreditWords ==> !Mentions(s, c)
  {
    NotMentionedByPair(s, "credited");
    NotMentionedByPair(s, "received");
    NotMentionedByPair(s, "refund");
  }

  lemma ValuesOfExamples()
    ensures Value("1") == 1 && Value("500") == 500 && Value("300") == 300
    ensures Value("1250") == 1250 && Value("100000") == 100000
  {
    assert Value("5") == 5 && Value("50") == 50 by { assert "50"[..1] == "5"; }
    assert "500"[..2] == "50";
    assert Value("3") == 3 && Value("30") == 30 by { assert "30"[..1] == "3"; }
    assert "300"[..2] == "30";
    assert Value("12") == 12 by { assert "12"[..1] == "1"; }
    assert Value("125") == 125 by { assert "125"[..2] == "12"; }
    assert "1250"[..3] == "125";
    assert Value("10") == 10 by { assert "10"[..1] == "1"; }
    assert Value("100") == 100 by { assert "100"[..2] == "10"; }
    assert Value("1000") == 1000 by { assert "1000"[..3] == "100"; }
    assert Value("10000") == 10000 by { assert "10000"[..4] == "1000"; }
    assert "100000"[..5] == "10000";
  }

  // The worked messages, written as marker, space, numeral and the rest where
  // they have an amount.

  /** "Rs. 500 debited from your account" */
  const DebitText := "Rs." + " " + "500" + " debited from your account"
  /** "INR 1,250.50 credited to your account" */
  const CreditText := "INR" + " " + "1,250" + ".50" + " credited to your account"
  const OtpText := "Your OTP is 4512"
  const BalanceText := "Rs. 200 balance available"
  /** "Rs. 300 credited and Rs. 100 debited" */
  const BothText := "Rs." + " " + "300" + " credited and Rs. 100 debited"
  /** "INR 1,00,000.00 debited" */
  const LakhText := "INR" + " " + "1,00,000" + ".00" + " debited"
  /** "Rs 1:,500 debited" */
  const ColonText := "Rs" + " " + "1:,500" + " debited"
  /** "Rs 500, debited" */
  const CommaText := "Rs" + " " + "500" + ", debited"

  /** DebitText is "Rs.", a space, the numeral "500" and the rest of the message. */
  lemma DebitTextPieces()
    ensures DebitText == "Rs." + " " + ("500" + Rounds([])) + [] + " debited from your account"
  {
    assert Rounds([]) == [];
  }

  /** DebitText names no credit word. */
  lemma DebitTextNoCredit()
    ensures forall c :: c in CreditWords ==> !Mentions(DebitText, c)
  {
    NoCreditKeyword(DebitText);
  }

  /** DebitText names "debited". */
  lemma DebitTextDebited()
    ensures Mentions(DebitText, "debited")
  {
    assert MatchesAt(DebitText, 8, "debited");
  }

  /** A whole number of rupees without separators, in hundredths. */
  lemma MagnitudeOfWholeExamples()
    ensures Magnitude("500" + Rounds([]) + []) == 50000
    ensures Magnitude("300" + Rounds([]) + []) == 30000
  {
    MagnitudeOfNumeral("500", [], []);
    MagnitudeOfNumeral("300", [], []);
    assert ReadDigits("500", []) == "500" && ReadDigits("300", []) == "300";
    ValuesOfExamples();
  }

  /** "Rs. 500 debited from your account" is a debit of 500 rupees. */
  lemma DebitMessage(date: string)
    ensures ParseSms(DebitText, date) == Some(Expense(-50000, SmsDescription, date, false))
  {
    DebitTextPieces();
    DebitTextNoCredit();
    DebitTextDebited();
    MagnitudeOfWholeExamples();
    DebitOfNumeral(DebitText, date, "Rs.", "500", [], [], " debited from your account", "debited");
  }

  /** CreditText is "INR", a space, the numeral "1,250.50" and the rest of the message. */
  lemma CreditTextPieces()
    ensures Rounds([Group(false, "250")]) == ",250"
    ensures CreditText == "INR" + " " + ("1" + Rounds([Group(false, "250")])) + ".50" + " credited to your account"
  {
    assert [Group(false, "250")][1..] == [];
    assert "1" + Rounds([Group(false, "250")]) == "1,250";
  }

  /** CreditText names "credited". */
  lemma CreditTextCredited()
    ensures Mentions(CreditText, "credited")
  {
    assert MatchesAt(CreditText, 13, "credited");
  }

  /** "1,250.50" reads as 1250.50 rupees: the comma is dropped and the two fraction digits kept. */
  lemma MagnitudeOfCreditNumeral()
    ensures Magnitude("1" + Rounds([Group(false, "250")]) + ".50") == 125050
  {
    var gs := [Group(false, "250")];
    assert gs[1..] == [];
    assert DigitGroups(gs) && NoColons(gs);
    MagnitudeOfNumeral("1", gs, ".50");
    assert ReadDigits("1", gs) == "1250";
    ValuesOfExamples();
  }

  /** "INR 1,250.50 credited to your account" is a credit of 1250.50 rupees. */
  lemma CreditMessage(date: string)
    ensures ParseSms(CreditText, date) == Some(Expense(125050, SmsDescription, date, true))
  {
    var gs := [Group(false, "250")];
    CreditTextPieces();
    CreditTextCredited();
    MagnitudeOfCreditNumeral();
    assert DigitGroups(gs);
    CreditOfNumeral(CreditText, date, "INR", "1", gs, ".50", " credited to your account", "credited");
  }

  /** OtpText names none of the currency markers. */
  lemma OtpTextNoMarker()
    ensures forall w :: w in Markers ==> !Mentions(OtpText, w)
  {
    NotMentionedByPair(OtpText, "INR");
    NotMentionedByPair(OtpText, "Rs");
    NotMentionedByPair(OtpText, "Rs.");
  }

  /** "Your OTP is 4512" names no currency marker, so it is no transaction. */
  lemma NoMarkerMessage(date: string)
    ensures ParseSms(OtpText, date) == None
  {
    OtpTextNoMarker();
    NoAmountNoTransaction(OtpText, date);
  }

  /** BalanceText names none of the credit words. */
  lemma BalanceTextNoCredit()
    ensures forall w :: w in CreditWords ==> !Mentions(BalanceText, w)
  {
    NoCreditKeyword(BalanceText);
  }

  /** BalanceText names no keyword, credit or debit. */
  lemma BalanceTextNoKeyword(w: string)
    requires w in CreditWords + DebitWords
    ensures !Mentions(BalanceText, w)
  {
    if w in CreditWords {
      BalanceTextNoCredit();
    } else {
      NotMentionedByPair(BalanceText, w);
    }
  }

  /** "Rs. 200 balance available" has an amount but no keyword, so it is no transaction. */
  lemma NoKeywordMessage(date: string)
    ensures ParseSms(BalanceText, date) == None
  {
    forall w | w in CreditWords + DebitWords ensures !Mentions(BalanceText, w) {
      BalanceTextNoKeyword(w);
    }
    NoKeywordNoTransaction(BalanceText, date);
  }

  /** BothText is "Rs.", a space, the numeral "300" and the rest of the message. */
  lemma BothTextPieces()
    ensures BothText == "Rs." + " " + ("300" + Rounds([])) + [] + " credited and Rs. 100 debited"
  {
    assert Rounds([]) == [];
  }

  /** BothText names "credited". */
  lemma BothTextCredited()
    ensures Mentions(BothText, "credited")
  {
    assert MatchesAt(BothText, 8, "credited");
  }

  /** "Rs. 300 credited and Rs. 100 debited": the first amount, as a credit, since credit words win. */
  lemma CreditPrecedenceMessage(date: string)
    ensures ParseSms(BothText, date) == Some(Expense(30000, SmsDescription, date, true))
  {
    BothTextPieces();
    BothTextCredited();
    MagnitudeOfWholeExamples();
    CreditOfNumeral(BothText, date, "Rs.", "300", [], [], " credited and Rs. 100 debited", "credited");
  }

  /** The lakh groups of LakhText. */
  function LakhGroups(): seq<Group> {
    [Group(false, "00"), Group(false, "000")]
  }

  /** LakhText is "INR", a space, the numeral "1,00,000.00" and " debited". */
  lemma LakhTextPieces()
    ensures DigitGroups(LakhGroups()) && NoColons(LakhGroups())
    ensures Rounds(LakhGroups()) == ",00,000"
    ensures LakhText == "INR" + " " + ("1" + Rounds(LakhGroups())) + ".00" + " debited"
  {
    var gs := LakhGroups();
    assert gs[1..] == [Group(false, "000")] && gs[1..][1..] == [];
    assert "1" + Rounds(gs) == "1,00,000";
  }

  /** LakhText names "debited" and no credit word. */
  lemma LakhTextWords()
    ensures Mentions(LakhText, "debited")
    ensures forall c :: c in CreditWords ==> !Mentions(LakhText, c)
  {
    assert MatchesAt(LakhText, 16, "debited");
    NoCreditKeyword(LakhText);
  }

  /** "1,00,000.00" reads as one lakh rupees. */
  lemma MagnitudeOfLakhNumeral()
    ensures Magnitude("1" + Rounds(LakhGroups()) + ".00") == 10000000
  {
    var gs := LakhGroups();
    LakhTextPieces();
    MagnitudeOfNumeral("1", gs, ".00");
    assert gs[1..] == [Group(false, "000")] && gs[1..][1..] == [];
    assert ReadDigits("1", gs) == "100000";
    ValuesOfExamples();
  }

  /** The amount of LakhText spans the whole numeral, from 4 to 15. */
  lemma LakhTextAmount()
    ensures AmountAt(LakhText, 0) == Some(AmountMatch(0, 4, 15))
  {
    LakhTextPieces();
    NumeralAmountAt(LakhText, "INR", "1", LakhGroups(), ".00", " debited");
  }

  /** Lakh grouping: "INR 1,00,000.00 debited" captures the whole numeral and is a debit of one lakh rupees. */
  lemma LakhMessage(date: string)
    ensures AmountAt(LakhText, 0) == Some(AmountMatch(0, 4, 15))
    ensures ParseSms(LakhText, date) == Some(Expense(-10000000, SmsDescription, date, false))
  {
    LakhTextPieces();
    LakhTextWords();
    MagnitudeOfLakhNumeral();
    LakhTextAmount();
    DebitOfNumeral(LakhText, date, "INR", "1", LakhGroups(), ".00", " debited", "debited");
  }

  /** ColonText is "Rs", a space, the numeral "1:,500" and " debited". */
  lemma ColonTextPieces()
    ensures DigitGroups([Group(true, "500")])
    ensures Rounds([Group(true, "500")]) == ":,500"
    ensures ColonText == "Rs" + " " + ("1" + Rounds([Group(true, "500")])) + [] + " debited"
  {
    assert [Group(true, "500")][1..] == [];
    assert "1" + Rounds([Group(true, "500")]) == "1:,500";
  }

  /** ColonText names "debited" and no credit word. */
  lemma ColonTextWords()
    ensures Mentions(ColonText, "debited")
    ensures forall c :: c in CreditWords ==> !Mentions(ColonText, c)
  {
    assert MatchesAt(ColonText, 10, "debited");
    NoCreditKeyword(ColonText);
  }

  /** "1:,500" reads as 1 rupee: parseFloat stops at the colon. */
  lemma MagnitudeOfColonNumeral()
    ensures Magnitude("1" + Rounds([Group(true, "500")]) + []) == 100
  {
    var gs := [Group(true, "500")];
    assert DigitGroups(gs);
    MagnitudeOfNumeral("1", gs, []);
    assert ReadDigits("1", gs) == "1";
    ValuesOfExamples();
  }

  /** The amount of ColonText spans "1:,500", from 3 to 9. */
  lemma ColonTextAmount()
    ensures AmountAt(ColonText, 0) == Some(AmountMatch(0, 3, 9))
  {
    ColonTextPieces();
    NumeralAmountAt(ColonText, "Rs", "1", [Group(true, "500")], [], " debited");
  }

  /**
   * The colon the pattern lets in: "Rs 1:,500 debited" captures "1:,500", but
   * parseFloat stops at the colon, so it is a debit of 1 rupee.
   */
  lemma ColonMessage(date: string)
    ensures AmountAt(ColonText, 0) == Some(AmountMatch(0, 3, 9))
    ensures ParseSms(ColonText, date) == Some(Expense(-100, SmsDescription, date, false))
  {
    ColonTextPieces();
    ColonTextWords();
    MagnitudeOfColonNumeral();
    ColonTextAmount();
    DebitOfNumeral(ColonText, date, "Rs", "1", [Group(true, "500")], [], " debited", "debited");
  }

  /** CommaText is "Rs", a space, the numeral "500" and ", debited". */
  lemma CommaTextPieces()
    ensures CommaText == "Rs" + " " + ("500" + Rounds([])) + [] + ", debited"
  {
    assert Rounds([]) == [];
  }

  /** CommaText names "debited" and no credit word. */
  lemma CommaTextWords()
    ensures Mentions(CommaText, "debited")
    ensures forall c :: c in CreditWords ==> !Mentions(CommaText, c)
  {
    assert MatchesAt(CommaText, 8, "debited");
    NoCreditKeyword(CommaText);
  }

  /** The amount of CommaText spans "500", from 3 to 6: the comma does not continue it. */
  lemma CommaTextAmount()
    ensures AmountAt(CommaText, 0) == Some(AmountMatch(0, 3, 6))
  {
    CommaTextPieces();
    NumeralAmountAt(CommaText, "Rs", "500", [], [], ", debited");
  }

  /**
   * A comma right after the amount: "Rs 500, debited" captures "500", since
   * the comma is not followed by a digit, and is a debit of 500 rupees.
   */
  lemma TrailingCommaMessage(date: string)
    ensures AmountAt(CommaText, 0) == Some(AmountMatch(0, 3, 6))
    ensures ParseSms(CommaText, date) == Some(Expense(-50000, SmsDescription, date, false))
  {
    CommaTextPieces();
    CommaTextWords();
    MagnitudeOfWholeExamples();
    CommaTextAmount();
    DebitOfNumeral(CommaText, date, "Rs", "500", [], [], ", debited", "debited");
  }
}
