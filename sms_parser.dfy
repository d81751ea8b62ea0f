/**
 * parseTransactionFromSMS of the home screen: find the first currency-marked
 * amount in a bank message, classify the message as credit or debit by
 * keywords, and build a transaction record, or give nothing.
 */
module SmsParser {
  import opened Wrappers
  import opened Text
  import opened Expenses

  /** The description every record taken from a message carries. */
  const SmsDescription: string := "SMS Transaction"

  /** The alternatives of `(?:debited|spent|paid|withdrawn)`. */
  const DebitWords: seq<string> := ["debited", "spent", "paid", "withdrawn"]

  /** The alternatives of `(?:credited|received|refund)`. */
  const CreditWords: seq<string> := ["credited", "received", "refund"]

  /** The alternatives of `(?:INR|Rs\.?)`. */
  const Markers: seq<string> := ["INR", "Rs", "Rs."]

  // ---------------------------------------------------------------------------
  // Case-insensitive matching (the `i` flag).

  /**
   * Case folding under the `i` flag for the letters these patterns use:
   * without the `u` flag JavaScript folds by toUpperCase but never lets a
   * non-ASCII character fold onto an ASCII one, so only A-Z/a-z pair up.
   */
  function Lower(c: char): char {
    if 'A' <= c <= 'Z' then (c as int + 32) as char else c
  }

  /**
   * Two characters are the same under the `i` flag exactly when they are
   * equal or are the capital and small forms of one ASCII letter.
   */
  lemma LowerMatches(c: char, e: char)
    ensures Lower(c) == Lower(e) <==>
      || c == e
      || ('A' <= c <= 'Z' && e as int == c as int + 32)
      || ('A' <= e <= 'Z' && c as int == e as int + 32)
  {
  }

  /** w occurs in s at position i, ignoring case. */
  predicate MatchesAt(s: string, i: nat, w: string) {
    i + |w| <= |s| && forall k :: 0 <= k < |w| ==> Lower(s[i + k]) == Lower(w[k])
  }

  /** w occurs somewhere in s, ignoring case and word boundaries. */
  ghost predicate Mentions(s: string, w: string) {
    exists i: nat :: MatchesAt(s, i, w)
  }

  /** Left-to-right search for w in s from position `from`. */
  function OccursFrom(s: string, w: string, from: nat): (r: bool)
    requires from <= |s|
    ensures r <==> exists i: nat :: from <= i && MatchesAt(s, i, w)
    decreases |s| - from
  {
    if MatchesAt(s, from, w) then true
    else if from == |s| then false
    else OccursFrom(s, w, from + 1)
  }

  /** `new RegExp(words.join('|'), 'i').test(s)`: some alternative occurs somewhere in s. */
  function MentionsAny(s: string, words: seq<string>): (r: bool)
    ensures r <==> exists w :: w in words && Mentions(s, w)
    decreases |words|
  {
    if words == [] then false
    else
      assert forall w :: w in words <==> w == words[0] || w in words[1..];
      assert OccursFrom(s, words[0], 0) <==> Mentions(s, words[0]);
      OccursFrom(s, words[0], 0) || MentionsAny(s, words[1..])
  }

  /** creditRegex.test(body): one of the credit words occurs somewhere, in any case. */
  function IsCreditText(body: string): (r: bool)
    ensures r <==> exists w :: w in CreditWords && Mentions(body, w)
  {
    MentionsAny(body, CreditWords)
  }

  /** debitRegex.test(body): one of the debit words occurs somewhere, in any case. */
  function IsDebitText(body: string): (r: bool)
    ensures r <==> exists w :: w in DebitWords && Mentions(body, w)
  {
    MentionsAny(body, DebitWords)
  }

  // ---------------------------------------------------------------------------
  // The amount pattern `(?:INR|Rs\.?)\s*(\d+(:?\,\d+)*(:?\.\d{2})?)` with /i.

  /**
   * Where the captured numeral of a match lies: the marker starts at `at`, the
   * numeral (group 1) is body[start..end].
   */
  datatype AmountMatch = AmountMatch(at: nat, start: nat, end: nat)

  /**
   * End of `(?:INR|Rs\.?)` at p. After "Rs" the optional point is taken when
   * present; leaving it untaken could not lead to a match, since `\s*\d` cannot
   * start at a point.
   */
  function MarkerEnd(s: string, p: nat): (r: Option<nat>)
    ensures r.Some? ==> p < r.value <= |s|
  {
    if MatchesAt(s, p, "INR") then Some(p + 3)
    else if MatchesAt(s, p, "Rs") then
      if p + 2 < |s| && s[p + 2] == '.' then Some(p + 3) else Some(p + 2)
    else None
  }

  /**
   * End of `(:?\,\d+)*` at i, greedy: each round takes an optional colon, a
   * comma and a whole run of digits.
   */
  function GroupsEnd(s: string, i: nat): (e: nat)
    requires i <= |s|
    ensures i <= e <= |s|
    decreases |s| - i
  {
    if i + 1 < |s| && s[i] == ',' && IsDigit(s[i + 1]) then GroupsEnd(s, DigitRunEnd(s, i + 1))
    else if i + 2 < |s| && s[i] == ':' && s[i + 1] == ',' && IsDigit(s[i + 2]) then GroupsEnd(s, DigitRunEnd(s, i + 2))
    else i
  }

  /** End of `(:?\.\d{2})?` at i: an optional colon, a point and exactly two digits, or nothing. */
  function FractionEnd(s: string, i: nat): (e: nat)
    requires i <= |s|
    ensures i <= e <= |s|
  {
    if i + 2 < |s| && s[i] == '.' && IsDigit(s[i + 1]) && IsDigit(s[i + 2]) then i + 3
    else if i + 3 < |s| && s[i] == ':' && s[i + 1] == '.' && IsDigit(s[i + 2]) && IsDigit(s[i + 3]) then i + 4
    else i
  }

  /** End of the numeral `\d+(:?\,\d+)*(:?\.\d{2})?` that starts with the digit at q. */
  function NumeralEnd(s: string, q: nat): (e: nat)
    requires q < |s| && IsDigit(s[q])
    ensures q < e <= |s|
  {
    FractionEnd(s, GroupsEnd(s, DigitRunEnd(s, q)))
  }

  /** The match of the amount pattern that starts at p, if one does. */
  function AmountAt(s: string, p: nat): (r: Option<AmountMatch>)
    ensures r.Some? ==> r.value.at == p && p < r.value.start < r.value.end <= |s|
  {
    match MarkerEnd(s, p)
    case None => None
    case Some(m) =>
      var q := SpaceRunEnd(s, m);
      if q < |s| && IsDigit(s[q]) then Some(AmountMatch(p, q, NumeralEnd(s, q))) else None
  }

  /** Digits at q, after white space from m. */
  ghost predicate DigitAfterSpaces(s: string, m: nat) {
    exists q :: m <= q < |s| && (forall k :: m <= k < q ==> IsSpace(s[k])) && IsDigit(s[q])
  }

  /**
   * The amount pattern can match at p: a marker (any case) at p, then white
   * space, then a digit. Whatever follows the first digit, the numeral part
   * then matches at least that digit.
   */
  ghost predicate AmountStartsAt(s: string, p: nat) {
    exists w :: w in Markers && MatchesAt(s, p, w) && DigitAfterSpaces(s, p + |w|)
  }

  /** Lower maps exactly the ASCII capitals onto lower-case letters; a point only onto itself. */
  lemma LowerPoint(c: char)
    ensures Lower(c) == '.' <==> c == '.'
  {
  }

  /** A found match is one the pattern allows: the marker, white space, a digit. */
  lemma AmountAtSound(s: string, p: nat)
    requires AmountAt(s, p).Some?
    ensures AmountStartsAt(s, p)
  {
    var m := MarkerEnd(s, p).value;
    var q := SpaceRunEnd(s, m);
    var w := if MatchesAt(s, p, "INR") then "INR" else if m == p + 3 then "Rs." else "Rs";
    assert w in Markers;
    if w == "Rs." {
      LowerPoint(s[p + 2]);
      assert Lower(s[p + 2]) == Lower(w[2]);
    }
    assert MatchesAt(s, p, w);
    assert m == p + |w|;
    assert DigitAfterSpaces(s, m);
  }

  /** A position where "Rs" or "Rs." matches does not also match "INR". */
  lemma NotInrAfterR(s: string, p: nat, w: string)
    requires (w == "Rs" || w == "Rs.") && MatchesAt(s, p, w)
    ensures !MatchesAt(s, p, "INR")
  {
    assert Lower(s[p + 0]) == Lower(w[0]) == 'r';
    assert Lower("INR"[0]) == 'i';
  }

  /** Where the pattern allows a marker w followed by a digit, the marker scan stops right after w. */
  lemma MarkerEndOf(s: string, p: nat, w: string)
    requires w in Markers && MatchesAt(s, p, w) && DigitAfterSpaces(s, p + |w|)
    ensures MarkerEnd(s, p) == Some(p + |w|)
  {
    if w == "Rs." {
      LowerPoint(s[p + 2]);
      assert Lower(s[p + 2]) == Lower(w[2]);
      NotInrAfterR(s, p, w);
      assert MatchesAt(s, p, "Rs") by { assert Lower(s[p]) == Lower(w[0]) && Lower(s[p + 1]) == Lower(w[1]); }
    } else if w == "Rs" {
      NotInrAfterR(s, p, w);
      var q :| p + 2 <= q < |s| && (forall k :: p + 2 <= k < q ==> IsSpace(s[k])) && IsDigit(s[q]);
      // a point is neither white space nor a digit, so it cannot follow a bare "Rs" here
      assert s[p + 2] != '.' by {
        if q == p + 2 { assert IsDigit(s[p + 2]); } else { assert IsSpace(s[p + 2]); }
      }
    }
  }

  /** White space then a digit: the white-space run ends at that digit. */
  lemma DigitAfterSpacesEnd(s: string, m: nat)
    requires m <= |s| && DigitAfterSpaces(s, m)
    ensures SpaceRunEnd(s, m) < |s| && IsDigit(s[SpaceRunEnd(s, m)])
  {
    var q :| m <= q < |s| && (forall k :: m <= k < q ==> IsSpace(s[k])) && IsDigit(s[q]);
    SpaceRunToDigit(s, m, q);
  }

  /** Where the pattern allows a match, the executable match at p finds it. */
  lemma AmountAtComplete(s: string, p: nat)
    requires AmountStartsAt(s, p)
    ensures AmountAt(s, p).Some?
  {
    var w :| w in Markers && MatchesAt(s, p, w) && DigitAfterSpaces(s, p + |w|);
    MarkerThenDigit(s, p, w);
  }

  /** A marker w at p with white space and a digit after it gives a match at p. */
  lemma MarkerThenDigit(s: string, p: nat, w: string)
    requires w in Markers && MatchesAt(s, p, w) && DigitAfterSpaces(s, p + |w|)
    ensures AmountAt(s, p).Some?
  {
    MarkerEndOf(s, p, w);
    var m := p + |w|;
    DigitAfterSpacesEnd(s, m);
    AmountAtOf(s, p, m, SpaceRunEnd(s, m));
  }

  /** The match at p, once the marker scan and the white-space run are known. */
  lemma AmountAtOf(s: string, p: nat, m: nat, q: nat)
    requires MarkerEnd(s, p) == Some(m) && m <= |s| && SpaceRunEnd(s, m) == q
    requires q < |s| && IsDigit(s[q])
    ensures AmountAt(s, p) == Some(AmountMatch(p, q, NumeralEnd(s, q)))
  {
  }

  /** The executable match at p exists exactly when the pattern can match there. */
  lemma AmountAtSpec(s: string, p: nat)
    ensures AmountAt(s, p).Some? <==> AmountStartsAt(s, p)
  {
    if AmountAt(s, p).Some? { AmountAtSound(s, p); }
    if AmountStartsAt(s, p) { AmountAtComplete(s, p); }
  }

  /**
   * `body.match(amountRegex)` searching from position `from`: the leftmost
   * position at which the pattern matches.
   */
  function FindAmount(s: string, from: nat): (r: Option<AmountMatch>)
    requires from <= |s|
    ensures r.None? <==> forall p :: from <= p < |s| ==> !AmountStartsAt(s, p)
    ensures r.Some? ==> && r == AmountAt(s, r.value.at)
                        && from <= r.value.at && AmountStartsAt(s, r.value.at)
                        && forall p :: from <= p < r.value.at ==> !AmountStartsAt(s, p)
    decreases |s| - from
  {
    AmountAtSpec(s, from);
    if from == |s| then None
    else if AmountAt(s, from).Some? then AmountAt(s, from)
    else FindAmount(s, from + 1)
  }

  /**
   * `amountMatch[1].replace(/,/g, '')` read by parseFloat, in hundredths.
   * parseFloat reads the leading run of digits and, after a point, the two
   * fraction digits the pattern guarantees; a colon let in by the pattern's
   * `(:?` groups stays in the text and stops it.
   */
  function Magnitude(numeral: string): nat {
    var t := RemoveCommas(numeral);
    var d := DigitRunEnd(t, 0);
    Value(t[..d]) * 100
    + (if d + 2 < |t| && t[d] == '.' && IsDigit(t[d + 1]) && IsDigit(t[d + 2]) then Value(t[d + 1..d + 3]) else 0)
  }

  /** parseTransactionFromSMS(body), with the date stamp given as `date`. */
  function ParseSms(body: string, date: string): (r: Option<Expense>)
    ensures r.Some? ==> WellSigned(r.value)
    ensures r.Some? ==> r.value.description == SmsDescription && r.value.date == date
  {
    match FindAmount(body, 0)
    case None => None
    case Some(a) =>
      var magnitude := Magnitude(body[a.start..a.end]);
      var isCredit := IsCreditText(body);
      var isDebit := IsDebitText(body);
      if !isCredit && !isDebit then None
      else Some(Expense(SignedAmount(magnitude, isCredit), SmsDescription, date, isCredit))
  }

  // ---------------------------------------------------------------------------
  // What the parser promises.

  /** A message with no marker followed by white space and a digit is never a transaction. */
  lemma NoAmountNoTransaction(body: string, date: string)
    requires forall p :: 0 <= p < |body| ==> !AmountStartsAt(body, p)
    ensures ParseSms(body, date) == None
  {
  }

  /** A message with an amount but none of the seven keywords is never a transaction. */
  lemma NoKeywordNoTransaction(body: string, date: string)
    requires forall w :: w in CreditWords + DebitWords ==> !Mentions(body, w)
    ensures ParseSms(body, date) == None
  {
    assert !IsCreditText(body) && !IsDebitText(body) by {
      forall w | w in CreditWords ensures !Mentions(body, w) { assert w in CreditWords + DebitWords; }
      forall w | w in DebitWords ensures !Mentions(body, w) { assert w in CreditWords + DebitWords; }
    }
  }

  /**
   * A message gives a record exactly when the amount pattern matches somewhere
   * and one of the seven keywords occurs somewhere.
   */
  lemma TransactionExactly(body: string, date: string)
    ensures ParseSms(body, date).Some? <==>
      (exists p :: 0 <= p < |body| && AmountStartsAt(body, p))
      && (exists w :: w in CreditWords + DebitWords && Mentions(body, w))
  {
    if exists w :: w in CreditWords + DebitWords && Mentions(body, w) {
      var w :| w in CreditWords + DebitWords && Mentions(body, w);
      assert w in CreditWords || w in DebitWords;
    }
  }

  /** The match the parser uses is the one at the leftmost position where the pattern can match. */
  lemma LeftmostMatchIsUsed(body: string, p: nat)
    requires AmountStartsAt(body, p)
    requires forall p' :: 0 <= p' < p ==> !AmountStartsAt(body, p')
    ensures FindAmount(body, 0) == AmountAt(body, p) && AmountAt(body, p).Some?
  {
    AmountAtSpec(body, p);
    assert p < |body|;
    var r := FindAmount(body, 0);
    assert r.Some?;
    assert r.value.at <= p;
    assert r.value.at >= p;
  }

  /** The parse once the leftmost match a is known: only the keyword tests remain. */
  lemma ParseWithMatch(body: string, date: string, a: AmountMatch)
    requires FindAmount(body, 0) == Some(a)
    ensures var magnitude := Magnitude(body[a.start..a.end]);
      ParseSms(body, date) ==
        if !IsCreditText(body) && !IsDebitText(body) then None
        else Some(Expense(SignedAmount(magnitude, IsCreditText(body)), SmsDescription, date, IsCreditText(body)))
  {
  }

  lemma NoCreditWord(body: string)
    requires forall c :: c in CreditWords ==> !Mentions(body, c)
    ensures !IsCreditText(body)
  {
  }

  lemma DebitWord(body: string, w: string)
    requires w in DebitWords && Mentions(body, w)
    ensures IsDebitText(body)
  {
  }

  /**
   * Credit precedence: a message with an amount and a credit keyword is a
   * credit of the positive magnitude of its leftmost amount, whether or not a
   * debit keyword occurs too.
   */
  lemma CreditWins(body: string, date: string, p: nat, w: string)
    requires AmountStartsAt(body, p)
    requires forall p' :: 0 <= p' < p ==> !AmountStartsAt(body, p')
    requires w in CreditWords && Mentions(body, w)
    ensures AmountAt(body, p).Some? && ParseSms(body, date).Some?
    ensures var a := AmountAt(body, p).value;
      var r := ParseSms(body, date).value;
      r.isCredit && r.amount == Magnitude(body[a.start..a.end])
  {
    LeftmostMatchIsUsed(body, p);
    var a := AmountAt(body, p).value;
    assert IsCreditText(body);
    ParseWithMatch(body, date, a);
  }

  /**
   * A message with an amount, a debit keyword and no credit keyword is a debit
   * of the negated magnitude of its leftmost amount.
   */
  lemma DebitOtherwise(body: string, date: string, p: nat, w: string)
    requires AmountStartsAt(body, p)
    requires forall p' :: 0 <= p' < p ==> !AmountStartsAt(body, p')
    requires forall c :: c in CreditWords ==> !Mentions(body, c)
    requires w in DebitWords && Mentions(body, w)
    ensures AmountAt(body, p).Some? && ParseSms(body, date).Some?
    ensures var a := AmountAt(body, p).value;
      var r := ParseSms(body, date).value;
      !r.isCredit && r.amount == -(Magnitude(body[a.start..a.end]) as int)
  {
    LeftmostMatchIsUsed(body, p);
    NoCreditWord(body);
    DebitWord(body, w);
    ParseWithMatch(body, date, AmountAt(body, p).value);
  }

  /** An amount matched at the start with numeral n, and a credit word: a credit of n's magnitude. */
  lemma CreditOfOpening(s: string, date: string, n: string, w: string)
    requires AmountStartsAt(s, 0) && AmountAt(s, 0).Some?
    requires var a := AmountAt(s, 0).value; a.start <= a.end <= |s| && s[a.start..a.end] == n
    requires w in CreditWords && Mentions(s, w)
    ensures ParseSms(s, date).Some?
    ensures ParseSms(s, date).value.isCredit && ParseSms(s, date).value.amount == Magnitude(n) as int
  {
    CreditWins(s, date, 0, w);
  }

  /** An amount matched at the start with numeral n, and only debit words: a debit of n's magnitude. */
  lemma DebitOfOpening(s: string, date: string, n: string, w: string)
    requires AmountStartsAt(s, 0) && AmountAt(s, 0).Some?
    requires var a := AmountAt(s, 0).value; a.start <= a.end <= |s| && s[a.start..a.end] == n
    requires forall c :: c in CreditWords ==> !Mentions(s, c)
    requires w in DebitWords && Mentions(s, w)
    ensures ParseSms(s, date).Some?
    ensures !ParseSms(s, date).value.isCredit && ParseSms(s, date).value.amount == -(Magnitude(n) as int)
  {
    DebitOtherwise(s, date, 0, w);
  }
}
