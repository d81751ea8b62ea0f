/**
 * Every numeral the amount pattern captures: a run of digits, any number of
 * comma groups of any length, each with an optional colon before its comma,
 * and an optional two-digit fraction with an optional colon before its point.
 * Thousands grouping ("1,234,567"), lakh grouping ("1,00,000") and ungrouped
 * digits are all instances. The lemmas say where such a numeral ends and what
 * parseFloat reads from it once the commas are removed: the digits up to the
 * first colon, and the fraction only when no colon occurs at all.
 */
module SmsNumerals {
  import opened Wrappers
  import opened Text
  import opened Expenses
  import opened SmsParser
  import opened SmsParserFacts

  /** One round of `(:?\,\d+)`: a comma, with or without a colon before it, then a run of digits. */
  datatype Group = Group(colon: bool, digits: string)

  /** Every group holds at least one digit and nothing but digits. */
  predicate DigitGroups(gs: seq<Group>) {
    forall k :: 0 <= k < |gs| ==> |gs[k].digits| >= 1 && AllDigits(gs[k].digits)
  }

  /** No group has a colon before its comma. */
  predicate NoColons(gs: seq<Group>) {
    forall k :: 0 <= k < |gs| ==> !gs[k].colon
  }

  /** The text of the groups: "," or ":," before each run of digits. */
  function Rounds(gs: seq<Group>): (r: string)
    ensures r == [] <==> gs == []
    ensures r != [] ==> r[0] == (if gs[0].colon then ':' else ',')
    decreases |gs|
  {
    if gs == [] then [] else (if gs[0].colon then ":," else ",") + gs[0].digits + Rounds(gs[1..])
  }

  /**
   * The digits parseFloat reads once the commas are gone: the lead digits d,
   * then the digits of every group up to the first one with a colon.
   */
  function ReadDigits(d: string, gs: seq<Group>): (r: string)
    requires AllDigits(d) && DigitGroups(gs)
    ensures AllDigits(r) && |r| >= |d|
    decreases |gs|
  {
    if gs == [] || gs[0].colon then d
    else
      var g := gs[0].digits;
      assert AllDigits(d + g) by {
        assert forall k :: 0 <= k < |d| + |g| ==> (d + g)[k] == if k < |d| then d[k] else g[k - |d|];
      }
      assert DigitGroups(gs[1..]) by {
        assert forall k :: 0 <= k < |gs| - 1 ==> gs[1..][k] == gs[k + 1];
      }
      ReadDigits(d + g, gs[1..])
  }

  /** `(:?\.\d{2})?`: nothing, ".dd", or ":.dd". */
  predicate FractionForm(f: string) {
    || f == []
    || (|f| == 3 && f[0] == '.' && IsDigit(f[1]) && IsDigit(f[2]))
    || (|f| == 4 && f[0] == ':' && f[1] == '.' && IsDigit(f[2]) && IsDigit(f[3]))
  }

  lemma DigitGroupsTail(gs: seq<Group>)
    requires gs != [] && DigitGroups(gs)
    ensures |gs[0].digits| >= 1 && AllDigits(gs[0].digits) && DigitGroups(gs[1..])
  {
    assert forall k :: 0 <= k < |gs| - 1 ==> gs[1..][k] == gs[k + 1];
  }

  // ---------------------------------------------------------------------------
  // Text placed at a position.

  /** t stands in s from position i on. */
  predicate TextAt(s: string, i: nat, t: string) {
    i + |t| <= |s| && forall k :: 0 <= k < |t| ==> s[i + k] == t[k]
  }

  /** Text that stands at i splits into its two parts. */
  lemma TextAtSplit(s: string, i: nat, a: string, b: string)
    requires TextAt(s, i, a + b)
    ensures TextAt(s, i, a) && TextAt(s, i + |a|, b)
  {
    forall k | 0 <= k < |a| ensures s[i + k] == a[k] { assert s[i + k] == (a + b)[k]; }
    forall k | 0 <= k < |b| ensures s[i + |a| + k] == b[k] { assert s[i + (|a| + k)] == (a + b)[|a| + k]; }
  }

  /** Digits standing at i make every position from i up to their end a digit. */
  lemma TextAtDigits(s: string, i: nat, t: string)
    requires TextAt(s, i, t) && AllDigits(t)
    ensures forall k :: i <= k < i + |t| ==> IsDigit(s[k])
  {
    forall k | i <= k < i + |t| ensures IsDigit(s[k]) { assert s[i + (k - i)] == t[k - i]; }
  }

  /** The middle part of a concatenation stands where the first part ends. */
  lemma TextAtConcat(a: string, t: string, b: string)
    ensures TextAt(a + t + b, |a|, t)
  {
    forall k | 0 <= k < |t| ensures (a + t + b)[|a| + k] == t[k] { }
  }

  // ---------------------------------------------------------------------------
  // Where the numeral ends.

  /** Where the digits of a group round start: after its comma, or after its colon and comma. */
  function DigitsStart(i: nat, g: Group): nat {
    if g.colon then i + 2 else i + 1
  }

  /**
   * One round of `(:?\,\d+)` over the text of the first group: the group's
   * digit run ends where the text of the other groups starts.
   */
  lemma RoundHead(s: string, i: nat, gs: seq<Group>)
    requires gs != [] && DigitGroups(gs) && TextAt(s, i, Rounds(gs))
    requires var j := i + |Rounds(gs)|; j == |s| || !IsDigit(s[j])
    ensures DigitsStart(i, gs[0]) < |s|
    ensures var e := DigitRunEnd(s, DigitsStart(i, gs[0])); var r := Rounds(gs[1..]);
      && GroupsEnd(s, i) == GroupsEnd(s, e)
      && TextAt(s, e, r) && e + |r| == i + |Rounds(gs)|
  {
    DigitGroupsTail(gs);
    var g := gs[0].digits;
    var sep := if gs[0].colon then ":," else ",";
    var r := Rounds(gs[1..]);
    var b := DigitsStart(i, gs[0]);
    assert |sep| == b - i;
    TextAtSplit(s, i, sep + g, r);
    TextAtSplit(s, i, sep, g);
    assert s[i + 0] == sep[0];
    if gs[0].colon {
      assert s[i + 1] == sep[1];
    }
    TextAtDigits(s, b, g);
    assert s[b + 0] == g[0];
    var e := b + |g|;
    if r != [] {
      assert s[e + 0] == r[0];
    }
    DigitRunEndAt(s, b, e);
  }

  /**
   * The `(:?\,\d+)*` rounds consume exactly the text of digit groups of any
   * lengths, with or without colons, when what follows neither is a digit nor
   * starts another round.
   */
  lemma {:induction false} RoundsEnd(s: string, i: nat, gs: seq<Group>)
    requires DigitGroups(gs) && TextAt(s, i, Rounds(gs))
    requires var j := i + |Rounds(gs)|; j == |s| || (!IsDigit(s[j]) && !StartsRound(s, j))
    ensures GroupsEnd(s, i) == i + |Rounds(gs)|
    decreases |gs|
  {
    if gs != [] {
      RoundHead(s, i, gs);
      DigitGroupsTail(gs);
      RoundsEnd(s, DigitRunEnd(s, DigitsStart(i, gs[0])), gs[1..]);
    }
  }

  /**
   * An optional fraction standing at j, properly ended, is what `(:?\.\d{2})?`
   * takes, and no group round continues at j.
   */
  lemma FractionEndOf(s: string, j: nat, f: string)
    requires FractionForm(f) && TextAt(s, j, f)
    requires f == [] ==> EndsNumeral(s[j..])
    ensures j == |s| || (!IsDigit(s[j]) && !StartsRound(s, j))
    ensures FractionEnd(s, j) == j + |f|
  {
    if f != [] {
      assert s[j + 0] == f[0] && s[j + 1] == f[1] && s[j + 2] == f[2];
      if |f| == 4 {
        assert s[j + 3] == f[3];
      }
    } else {
      EndsNumeralAt(s, j);
    }
  }

  /**
   * A numeral made of a digit run, groups of any lengths and an optional
   * fraction, properly ended, is exactly what the numeral part of the pattern
   * captures.
   */
  lemma NumeralEndOf(s: string, q: nat, d: string, gs: seq<Group>, f: string)
    requires AllDigits(d) && |d| >= 1 && DigitGroups(gs) && FractionForm(f)
    requires TextAt(s, q, d + Rounds(gs) + f)
    requires f == [] ==> EndsNumeral(s[q + |d| + |Rounds(gs)|..])
    ensures IsDigit(s[q]) && NumeralEnd(s, q) == q + |d| + |Rounds(gs)| + |f|
  {
    var r := Rounds(gs);
    var j0 := q + |d|;
    var j := j0 + |r|;
    TextAtSplit(s, q, d + r, f);
    TextAtSplit(s, q, d, r);
    TextAtDigits(s, q, d);
    FractionEndOf(s, j, f);
    if r != [] {
      assert s[j0 + 0] == r[0];
    }
    DigitRunEndAt(s, q, j0);
    RoundsEnd(s, j0, gs);
  }

  // ---------------------------------------------------------------------------
  // What parseFloat reads from it.

  lemma DigitsHaveNoComma(d: string)
    requires AllDigits(d)
    ensures RemoveCommas(d) == d
  {
    assert forall k :: 0 <= k < |d| ==> d[k] != ',';
    RemoveCommasKeepsPlain(d);
  }

  /** A comma between two texts is dropped by the replacement and nothing else changes. */
  lemma RemoveCommasSkipsComma(a: string, b: string)
    ensures RemoveCommas(a + [','] + b) == RemoveCommas(a + b)
  {
    RemoveCommasConcat(a + [','], b);
    RemoveCommasConcat(a, [',']);
    RemoveCommasConcat(a, b);
    assert RemoveCommas([',']) == [];
  }

  /** A colon stops parseFloat: digits, then a colon, read as those digits whatever follows. */
  lemma MagnitudeAtColon(d: string, x: string)
    requires AllDigits(d) && |d| >= 1
    ensures Magnitude(d + [':'] + x) == Value(d) * 100
  {
    RemoveCommasConcat(d + [':'], x);
    RemoveCommasConcat(d, [':']);
    DigitsHaveNoComma(d);
    assert RemoveCommas([':']) == [':'];
    var t := d + [':'] + RemoveCommas(x);
    assert RemoveCommas(d + [':'] + x) == t;
    assert t[0..|d|] == d && t[..|d|] == d && t[|d|] == ':';
    DigitRunOf(t, 0, d);
  }

  /** A ":.dd" fraction is not read: the colon stops parseFloat first. */
  lemma MagnitudeOfColonFraction(d: string, f: string)
    requires AllDigits(d) && |d| >= 1 && |f| == 4 && f[0] == ':'
    ensures Magnitude(d + f) == Value(d) * 100
  {
    assert d + f == d + [':'] + f[1..];
    MagnitudeAtColon(d, f[1..]);
  }

  /** A numeral with no groups: its digits in hundredths, plus a ".dd" fraction but not a ":.dd" one. */
  lemma MagnitudeOfDigits(d: string, f: string)
    requires AllDigits(d) && |d| >= 1 && FractionForm(f)
    ensures Magnitude(d + f) == Value(d) * 100 + (if |f| == 3 then FractionValue(f) else 0)
  {
    if |f| == 4 {
      MagnitudeOfColonFraction(d, f);
    } else {
      DigitsHaveNoComma(d);
      FractionKeepsPlain(f);
      RemoveCommasConcat(d, f);
      MagnitudeOfPlain(d + f, d, f);
    }
  }

  /** A first group with a colon stops parseFloat right after the lead digits. */
  lemma MagnitudeOfColonRound(d: string, gs: seq<Group>, f: string)
    requires AllDigits(d) && |d| >= 1 && gs != [] && gs[0].colon
    ensures Magnitude(d + Rounds(gs) + f) == Value(d) * 100
  {
    var x := [','] + gs[0].digits + Rounds(gs[1..]) + f;
    assert d + Rounds(gs) + f == d + [':'] + x;
    MagnitudeAtColon(d, x);
  }

  /** Texts that agree once their commas are removed have the same magnitude. */
  lemma MagnitudeIgnoresCommas(a: string, b: string)
    requires RemoveCommas(a) == RemoveCommas(b)
    ensures Magnitude(a) == Magnitude(b)
  {
  }

  /** Dropping the comma of a first group without a colon leaves its digits joined to the lead digits. */
  lemma PlainRoundText(d: string, gs: seq<Group>, f: string)
    requires gs != [] && !gs[0].colon
    ensures RemoveCommas(d + Rounds(gs) + f) == RemoveCommas((d + gs[0].digits) + Rounds(gs[1..]) + f)
  {
    var g, rest := gs[0].digits, gs[1..];
    var y := g + Rounds(rest) + f;
    assert d + Rounds(gs) + f == d + [','] + y;
    RemoveCommasSkipsComma(d, y);
    assert d + y == (d + g) + Rounds(rest) + f;
  }

  /** A first group without a colon reads as if its digits were part of the lead digits. */
  lemma MagnitudeOfPlainRound(d: string, gs: seq<Group>, f: string)
    requires AllDigits(d) && gs != [] && !gs[0].colon && DigitGroups(gs)
    ensures AllDigits(d + gs[0].digits) && DigitGroups(gs[1..])
    ensures NoColons(gs) <==> NoColons(gs[1..])
    ensures Magnitude(d + Rounds(gs) + f) == Magnitude((d + gs[0].digits) + Rounds(gs[1..]) + f)
  {
    DigitGroupsTail(gs);
    var g, rest := gs[0].digits, gs[1..];
    PlainRoundText(d, gs, f);
    MagnitudeIgnoresCommas(d + Rounds(gs) + f, (d + g) + Rounds(rest) + f);
    DigitsConcat(d, g);
    NoColonsTail(gs);
  }

  /** Two runs of digits joined are a run of digits. */
  lemma DigitsConcat(a: string, b: string)
    requires AllDigits(a) && AllDigits(b)
    ensures AllDigits(a + b)
  {
    assert forall k :: 0 <= k < |a| + |b| ==> (a + b)[k] == if k < |a| then a[k] else b[k - |a|];
  }

  /** Dropping a first group without a colon keeps whether any group has one. */
  lemma NoColonsTail(gs: seq<Group>)
    requires gs != [] && !gs[0].colon
    ensures NoColons(gs) <==> NoColons(gs[1..])
  {
    assert forall k :: 0 <= k < |gs| - 1 ==> gs[1..][k] == gs[k + 1];
  }

  /**
   * The magnitude of every numeral the pattern captures: the commas are
   * dropped; parseFloat reads the digits up to the first colon, and the two
   * fraction digits only when no colon occurs anywhere.
   */
  lemma {:induction false} MagnitudeOfNumeral(d: string, gs: seq<Group>, f: string)
    requires AllDigits(d) && |d| >= 1 && DigitGroups(gs) && FractionForm(f)
    ensures Magnitude(d + Rounds(gs) + f)
         == Value(ReadDigits(d, gs)) * 100 + (if NoColons(gs) && |f| == 3 then FractionValue(f) else 0)
    decreases |gs|
  {
    if gs == [] {
      assert d + Rounds(gs) + f == d + f;
      MagnitudeOfDigits(d, f);
    } else if gs[0].colon {
      MagnitudeOfColonRound(d, gs, f);
    } else {
      MagnitudeOfPlainRound(d, gs, f);
      MagnitudeOfNumeral(d + gs[0].digits, gs[1..], f);
    }
  }

  // ---------------------------------------------------------------------------
  // A message that opens with such a numeral.

  /**
   * A message of a currency marker, one space, a numeral of any grouping and
   * an ending that cannot extend it: the leftmost match is at the start and
   * captures exactly the numeral.
   */
  lemma NumeralAmountAt(s: string, marker: string, d: string, gs: seq<Group>, f: string, rest: string)
    requires marker in Markers
    requires AllDigits(d) && |d| >= 1 && DigitGroups(gs) && FractionForm(f)
    requires s == marker + " " + (d + Rounds(gs)) + f + rest
    requires f == [] ==> EndsNumeral(rest)
    ensures FindAmount(s, 0) == AmountAt(s, 0) && AmountAt(s, 0).Some?
    ensures AmountAt(s, 0).value == AmountMatch(0, |marker| + 1, |marker| + 1 + |d| + |Rounds(gs)| + |f|)
    ensures s[|marker| + 1..|marker| + 1 + |d| + |Rounds(gs)| + |f|] == d + Rounds(gs) + f
  {
    var q := |marker| + 1;
    var g := d + Rounds(gs);
    GroupedMessageSlices(s, marker, g, f, rest);
    assert s == marker + " " + (g + f) + rest;
    TextAtConcat(marker + " ", g + f, rest);
    NumeralEndOf(s, q, d, gs, f);
    AmountAtStart(s, marker);
    assert AmountAt(s, 0).value == AmountMatch(0, q, NumeralEnd(s, q));
  }

  /**
   * A message that opens with a marker, a space and a numeral has its amount
   * at the start, and the amount's text is the numeral.
   */
  lemma NumeralOpens(s: string, marker: string, d: string, gs: seq<Group>, f: string, rest: string)
    requires marker in Markers
    requires AllDigits(d) && |d| >= 1 && DigitGroups(gs) && FractionForm(f)
    requires s == marker + " " + (d + Rounds(gs)) + f + rest
    requires f == [] ==> EndsNumeral(rest)
    ensures AmountStartsAt(s, 0) && AmountAt(s, 0).Some?
    ensures var a := AmountAt(s, 0).value; a.start <= a.end <= |s| && s[a.start..a.end] == d + Rounds(gs) + f
  {
    NumeralAmountAt(s, marker, d, gs, f, rest);
    AmountAtSound(s, 0);
  }

  /**
   * A message that opens with a marker, a space and a numeral, and names a
   * debit word but no credit word, is a debit of the numeral's magnitude.
   */
  lemma DebitOfNumeral(s: string, date: string, marker: string, d: string, gs: seq<Group>, f: string, rest: string, w: string)
    requires marker in Markers
    requires AllDigits(d) && |d| >= 1 && DigitGroups(gs) && FractionForm(f)
    requires s == marker + " " + (d + Rounds(gs)) + f + rest
    requires f == [] ==> EndsNumeral(rest)
    requires forall c :: c in CreditWords ==> !Mentions(s, c)
    requires w in DebitWords && Mentions(s, w)
    ensures ParseSms(s, date).Some?
    ensures !ParseSms(s, date).value.isCredit
    ensures ParseSms(s, date).value.amount == -(Magnitude(d + Rounds(gs) + f) as int)
  {
    NumeralOpens(s, marker, d, gs, f, rest);
    DebitOfOpening(s, date, d + Rounds(gs) + f, w);
  }

  /**
   * A message that opens with a marker, a space and a numeral, and names a
   * credit word, is a credit of the numeral's magnitude, whatever else it names.
   */
  lemma CreditOfNumeral(s: string, date: string, marker: string, d: string, gs: seq<Group>, f: string, rest: string, w: string)
    requires marker in Markers
    requires AllDigits(d) && |d| >= 1 && DigitGroups(gs) && FractionForm(f)
    requires s == marker + " " + (d + Rounds(gs)) + f + rest
    requires f == [] ==> EndsNumeral(rest)
    requires w in CreditWords && Mentions(s, w)
    ensures ParseSms(s, date).Some?
    ensures ParseSms(s, date).value.isCredit
    ensures ParseSms(s, date).value.amount == Magnitude(d + Rounds(gs) + f) as int
  {
    NumeralOpens(s, marker, d, gs, f, rest);
    CreditOfOpening(s, date, d + Rounds(gs) + f, w);
  }
}
