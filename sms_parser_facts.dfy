/**
 * Consequences of the SMS parser: how it reads an amount grouped in thousands,
 * and how it reads back what formatAmount prints.
 */
module SmsParserFacts {
  import opened Wrappers
  import opened Text
  import opened Expenses
  import opened SmsParser
  import opened AmountFormat

  /** Another group round could start at j: a comma and a digit, or a colon, a comma and a digit. */
  predicate StartsRound(s: string, j: nat) {
    || (j + 1 < |s| && s[j] == ',' && IsDigit(s[j + 1]))
    || (j + 2 < |s| && s[j] == ':' && s[j + 1] == ',' && IsDigit(s[j + 2]))
  }

  /** The optional fraction could start at j: a point and two digits, or a colon, a point and two digits. */
  predicate StartsFraction(s: string, j: nat) {
    || (j + 2 < |s| && s[j] == '.' && IsDigit(s[j + 1]) && IsDigit(s[j + 2]))
    || (j + 3 < |s| && s[j] == ':' && s[j + 1] == '.' && IsDigit(s[j + 2]) && IsDigit(s[j + 3]))
  }

  /**
   * What may follow a numeral that has no fraction without extending it:
   * nothing, or a character that is not a digit and starts neither another
   * group round nor a fraction. A comma or a colon that does not continue the
   * numeral, as in "Rs 500, debited", ends it.
   */
  predicate EndsNumeral(rest: string) {
    rest == [] || (!IsDigit(rest[0]) && !StartsRound(rest, 0) && !StartsFraction(rest, 0))
  }

  /** A numeral ended at j: the group rounds and the fraction both stop there. */
  lemma EndsNumeralAt(s: string, j: nat)
    requires j <= |s| && EndsNumeral(s[j..])
    ensures j == |s| || (!IsDigit(s[j]) && !StartsRound(s, j))
    ensures FractionEnd(s, j) == j
  {
    if j < |s| {
      var rest := s[j..];
      assert rest[0] == s[j];
      if j + 1 < |s| {
        assert rest[1] == s[j + 1];
      }
      if j + 2 < |s| {
        assert rest[2] == s[j + 2];
      }
      if j + 3 < |s| {
        assert rest[3] == s[j + 3];
      }
    }
  }

  /** Where the group rounds stop after a digit run, no digit follows and no further round starts. */
  lemma {:induction false} GroupsEndStops(s: string, i: nat)
    requires i <= |s| && (i == |s| || !IsDigit(s[i]))
    ensures var e := GroupsEnd(s, i); e == |s| || (!IsDigit(s[e]) && !StartsRound(s, e))
    decreases |s| - i
  {
    if i + 1 < |s| && s[i] == ',' && IsDigit(s[i + 1]) {
      GroupsEndStops(s, DigitRunEnd(s, i + 1));
    } else if i + 2 < |s| && s[i] == ':' && s[i + 1] == ',' && IsDigit(s[i + 2]) {
      GroupsEndStops(s, DigitRunEnd(s, i + 2));
    }
  }

  /**
   * The converse of `EndsNumeralAt`: where the pattern stops a numeral that
   * takes no fraction, what follows satisfies `EndsNumeral`. So `EndsNumeral`
   * is exactly the pattern's stopping condition.
   */
  lemma NumeralStopsAt(s: string, q: nat)
    requires q < |s| && IsDigit(s[q])
    ensures var g := GroupsEnd(s, DigitRunEnd(s, q)); FractionEnd(s, g) == g ==> EndsNumeral(s[g..])
  {
    var g := GroupsEnd(s, DigitRunEnd(s, q));
    GroupsEndStops(s, DigitRunEnd(s, q));
    if FractionEnd(s, g) == g && g < |s| {
      var rest := s[g..];
      assert rest[0] == s[g];
      if g + 1 < |s| {
        assert rest[1] == s[g + 1];
      }
      if g + 2 < |s| {
        assert rest[2] == s[g + 2];
      }
      if g + 3 < |s| {
        assert rest[3] == s[g + 3];
      }
    }
  }

  /** The `(:?\,\d+)*` rounds consume exactly a run of ",ddd" groups that is not followed by more digits or separators. */
  lemma {:induction false} ChunksEnd(s: string, i: nat, u: string)
    requires |u| % 3 == 0 && AllDigits(u)
    requires i + |Chunked(u)| <= |s| && s[i..i + |Chunked(u)|] == Chunked(u)
    requires var j := i + |Chunked(u)|; j == |s| || (!IsDigit(s[j]) && !StartsRound(s, j))
    ensures GroupsEnd(s, i) == i + |Chunked(u)|
    decreases |u|
  {
    if u != [] {
      var c := Chunked(u);
      var c' := Chunked(u[3..]);
      assert c == [','] + u[..3] + c';
      assert s[i] == c[0] == ',';
      forall k | i + 1 <= k < i + 4 ensures IsDigit(s[k]) {
        assert s[k] == s[i..i + |c|][k - i] == c[k - i] == u[k - i - 1];
      }
      assert s[i + 4..i + |c|] == s[i..i + |c|][4..] == c';
      if c' != [] {
        assert s[i + 4] == c'[0] == ',';
      }
      DigitRunEndAt(s, i + 1, i + 4);
      ChunksEnd(s, i + 4, u[3..]);
    }
  }

  /**
   * A grouped numeral at q: its digit run stops after the lead digits, and
   * what follows is the ",ddd" groups, in the form the group rounds read.
   */
  lemma LeadDigitsEnd(s: string, q: nat, d: string)
    requires AllDigits(d) && |d| >= 1
    requires q + |Grouped(d)| <= |s| && s[q..q + |Grouped(d)|] == Grouped(d)
    requires var j := q + |Grouped(d)|; j == |s| || (!IsDigit(s[j]) && !StartsRound(s, j))
    ensures var h := LeadLength(|d|); var u := d[h..]; var r := DigitRunEnd(s, q);
      && |u| % 3 == 0 && AllDigits(u)
      && r == q + h
      && |Grouped(d)| == h + |Chunked(u)|
      && r + |Chunked(u)| <= |s| && s[r..r + |Chunked(u)|] == Chunked(u)
      && (var j := r + |Chunked(u)|; j == |s| || (!IsDigit(s[j]) && !StartsRound(s, j)))
  {
    var h := LeadLength(|d|);
    var g := Grouped(d);
    var c := Chunked(d[h..]);
    assert g == d[..h] + c;
    forall k | q <= k < q + h ensures IsDigit(s[k]) {
      assert s[k] == s[q..q + |g|][k - q] == g[k - q] == d[k - q];
    }
    assert s[q + h..q + |g|] == s[q..q + |g|][h..] == c;
    if c != [] {
      assert s[q + h] == c[0] == ',';
    }
    DigitRunEndAt(s, q, q + h);
  }

  /** The digit run and the group rounds together consume exactly a grouped numeral. */
  lemma GroupedDigitsEnd(s: string, q: nat, d: string)
    requires AllDigits(d) && |d| >= 1
    requires q + |Grouped(d)| <= |s| && s[q..q + |Grouped(d)|] == Grouped(d)
    requires var j := q + |Grouped(d)|; j == |s| || (!IsDigit(s[j]) && !StartsRound(s, j))
    ensures GroupsEnd(s, DigitRunEnd(s, q)) == q + |Grouped(d)|
  {
    LeadDigitsEnd(s, q, d);
    var h := LeadLength(|d|);
    ChunksEnd(s, DigitRunEnd(s, q), d[h..]);
  }

  /** The hundredths a ".dd" fraction stands for; nothing for an absent one. */
  function FractionValue(f: string): nat {
    if |f| == 3 && IsDigit(f[1]) && IsDigit(f[2]) then DigitValue(f[1]) * 10 + DigitValue(f[2]) else 0
  }

  lemma FractionKeepsPlain(f: string)
    requires f == [] || (|f| == 3 && f[0] == '.' && IsDigit(f[1]) && IsDigit(f[2]))
    ensures RemoveCommas(f) == f
  {
    assert ',' !in f by {
      if f != [] {
        assert f == [f[0], f[1], f[2]];
      }
    }
    RemoveCommasKeepsPlain(f);
  }

  /** Dropping the commas of a grouped numeral with a fraction leaves its digits and the fraction. */
  lemma GroupedFractionRemoveCommas(d: string, f: string)
    requires AllDigits(d)
    requires f == [] || (|f| == 3 && f[0] == '.' && IsDigit(f[1]) && IsDigit(f[2]))
    ensures RemoveCommas(Grouped(d) + f) == d + f
  {
    FractionKeepsPlain(f);
    GroupedRemoveCommas(d);
    RemoveCommasConcat(Grouped(d), f);
  }

  /** Magnitude of a numeral whose comma-free text is a digit run. */
  lemma MagnitudeOfWhole(numeral: string, d: string)
    requires AllDigits(d) && |d| >= 1
    requires RemoveCommas(numeral) == d
    ensures Magnitude(numeral) == Value(d) * 100
  {
    assert d[0..|d|] == d && d[..|d|] == d;
    DigitRunOf(d, 0, d);
  }

  /** Magnitude of a numeral whose comma-free text is a digit run, a point and two digits. */
  lemma MagnitudeOfFraction(numeral: string, d: string, f: string)
    requires AllDigits(d) && |d| >= 1
    requires |f| == 3 && f[0] == '.' && IsDigit(f[1]) && IsDigit(f[2])
    requires RemoveCommas(numeral) == d + f
    ensures Magnitude(numeral) == Value(d) * 100 + DigitValue(f[1]) * 10 + DigitValue(f[2])
  {
    var t := d + f;
    assert t[0..|d|] == d && t[..|d|] == d;
    assert t[|d|] == '.';
    DigitRunOf(t, 0, d);
    var x := t[|d| + 1..|d| + 3];
    assert x[0] == f[1] && x[1] == f[2];
    ValueOfTwo(x);
  }

  /** Magnitude of a numeral whose comma-free text is a digit run and an optional two-digit fraction. */
  lemma MagnitudeOfPlain(numeral: string, d: string, f: string)
    requires AllDigits(d) && |d| >= 1
    requires f == [] || (|f| == 3 && f[0] == '.' && IsDigit(f[1]) && IsDigit(f[2]))
    requires RemoveCommas(numeral) == d + f
    ensures Magnitude(numeral) == Value(d) * 100 + FractionValue(f)
  {
    if f == [] {
      assert d + f == d;
      MagnitudeOfWhole(numeral, d);
    } else {
      MagnitudeOfFraction(numeral, d, f);
    }
  }

  /** The magnitude of a grouped numeral with an optional two-digit fraction: commas are dropped before conversion. */
  lemma MagnitudeOfGrouped(d: string, f: string)
    requires AllDigits(d) && |d| >= 1
    requires f == [] || (|f| == 3 && f[0] == '.' && IsDigit(f[1]) && IsDigit(f[2]))
    ensures Magnitude(Grouped(d) + f) == Value(d) * 100 + FractionValue(f)
  {
    GroupedFractionRemoveCommas(d, f);
    MagnitudeOfPlain(Grouped(d) + f, d, f);
  }

  /** A marker at the very start, one space and a digit: the amount match is at the start, and it is the one used. */
  lemma AmountAtStart(s: string, marker: string)
    requires marker in Markers
    requires |marker| + 1 < |s| && s[..|marker|] == marker && s[|marker|] == ' ' && IsDigit(s[|marker| + 1])
    ensures AmountAt(s, 0) == Some(AmountMatch(0, |marker| + 1, NumeralEnd(s, |marker| + 1)))
    ensures FindAmount(s, 0) == AmountAt(s, 0)
  {
    var m := |marker|;
    assert DigitAfterSpaces(s, m) by {
      assert IsSpace(s[m]);
    }
    assert MatchesAt(s, 0, marker) by {
      forall k | 0 <= k < m ensures Lower(s[k]) == Lower(marker[k]) { assert s[k] == s[..m][k]; }
    }
    MarkerEndOf(s, 0, marker);
    SpaceRunEndAt(s, m, m + 1);
    AmountAtSound(s, 0);
    LeftmostMatchIsUsed(s, 0);
  }

  /** A grouped numeral with an optional two-digit fraction, properly ended, is exactly what the numeral part matches. */
  lemma NumeralEndGrouped(s: string, q: nat, d: string, f: string)
    requires AllDigits(d) && |d| >= 1
    requires f == [] || (|f| == 3 && f[0] == '.' && IsDigit(f[1]) && IsDigit(f[2]))
    requires q + |Grouped(d)| + |f| <= |s| && s[q..q + |Grouped(d)| + |f|] == Grouped(d) + f
    requires f == [] ==> EndsNumeral(s[q + |Grouped(d)|..])
    ensures IsDigit(s[q]) && NumeralEnd(s, q) == q + |Grouped(d)| + |f|
  {
    var g := Grouped(d);
    var j := q + |g|;
    GroupedEnds(d);
    assert s[q] == (g + f)[0] == g[0];
    assert s[q..j] == (g + f)[..|g|] == g;
    if f != [] {
      assert s[j..j + 3] == (g + f)[|g|..] == f;
      assert s[j] == f[0];
    } else {
      EndsNumeralAt(s, j);
    }
    GroupedDigitsEnd(s, q, d);
  }

  /** The pieces of a four-part concatenation, read back by slicing. */
  lemma ConcatSlices(s: string, a: string, b: string, c: string, r: string)
    requires s == a + b + c + r
    ensures s[..|a|] == a && s[|a|..|a| + |b| + |c|] == b + c && s[|a| + |b|..] == c + r
  {
    assert s == a + ((b + c) + r);
    assert s[|a|..] == (b + c) + r;
    assert s[|a| + |b|..] == s[|a|..][|b|..];
  }

  /**
   * A message that starts with a currency marker, one space and a
   * comma-grouped numeral with an optional two-digit fraction: the match is at
   * the start and its magnitude is the numeral's value with the commas dropped.
   */
  lemma GroupedAmountParses(s: string, marker: string, d: string, f: string, rest: string)
    requires marker in Markers
    requires AllDigits(d) && |d| >= 1
    requires f == [] || (|f| == 3 && f[0] == '.' && IsDigit(f[1]) && IsDigit(f[2]))
    requires s == marker + " " + Grouped(d) + f + rest
    requires f == [] ==> EndsNumeral(rest)
    ensures FindAmount(s, 0) == AmountAt(s, 0) && AmountAt(s, 0).Some?
    ensures Magnitude(s[AmountAt(s, 0).value.start..AmountAt(s, 0).value.end])
         == Value(d) * 100 + FractionValue(f)
  {
    GroupedMessageSlices(s, marker, Grouped(d), f, rest);
    GroupedMatch(s, marker, d, f);
    MagnitudeOfMatch(s, AmountAt(s, 0).value, |marker| + 1, |marker| + 1 + |Grouped(d)| + |f|, d, f);
  }

  /** Where the match of `GroupedAmountParses` lies: from the numeral's first digit to its end. */
  lemma GroupedMatch(s: string, marker: string, d: string, f: string)
    requires marker in Markers
    requires AllDigits(d) && |d| >= 1
    requires f == [] || (|f| == 3 && f[0] == '.' && IsDigit(f[1]) && IsDigit(f[2]))
    requires |marker| + 1 + |Grouped(d)| + |f| <= |s|
    requires s[..|marker|] == marker && s[|marker|] == ' '
    requires s[|marker| + 1..|marker| + 1 + |Grouped(d)| + |f|] == Grouped(d) + f
    requires f == [] ==> EndsNumeral(s[|marker| + 1 + |Grouped(d)|..])
    ensures FindAmount(s, 0) == AmountAt(s, 0) && AmountAt(s, 0).Some?
    ensures AmountAt(s, 0).value.start == |marker| + 1
    ensures AmountAt(s, 0).value.end == |marker| + 1 + |Grouped(d)| + |f|
  {
    NumeralEndGrouped(s, |marker| + 1, d, f);
    AmountAtStart(s, marker);
  }

  /** The magnitude of a match that spans a grouped numeral with an optional fraction. */
  lemma MagnitudeOfMatch(s: string, a: AmountMatch, p: nat, e: nat, d: string, f: string)
    requires AllDigits(d) && |d| >= 1
    requires f == [] || (|f| == 3 && f[0] == '.' && IsDigit(f[1]) && IsDigit(f[2]))
    requires a.start == p && a.end == e && p <= e <= |s| && s[p..e] == Grouped(d) + f
    ensures Magnitude(s[a.start..a.end]) == Value(d) * 100 + FractionValue(f)
  {
    MagnitudeOfGrouped(d, f);
  }

  /** The slices of a message built by concatenation of a marker, a space, a numeral, a fraction and the rest. */
  lemma GroupedMessageSlices(s: string, marker: string, g: string, f: string, rest: string)
    requires s == marker + " " + g + f + rest
    ensures |marker| + 1 + |g| + |f| <= |s|
    ensures s[..|marker|] == marker && s[|marker|] == ' '
    ensures s[|marker| + 1..|marker| + 1 + |g| + |f|] == g + f
    ensures s[|marker| + 1 + |g|..] == f + rest
  {
    var q := |marker| + 1;
    ConcatSlices(s, marker + " ", g, f, rest);
    assert s[..|marker|] == s[..q][..|marker|];
    assert s[|marker|] == s[..q][|marker|];
  }

  // ---------------------------------------------------------------------------
  // Keywords in concatenated messages.

  /** A word placed in a message is mentioned there, at the place it was put. */
  lemma MentionedIn(a: string, w: string, b: string)
    ensures MatchesAt(a + w + b, |a|, w) && Mentions(a + w + b, w)
  {
    var s := a + w + b;
    forall k | 0 <= k < |w| ensures Lower(s[|a| + k]) == Lower(w[k]) {
      assert s[|a| + k] == w[k];
    }
  }

  /** A word at the very end of a message, after a separator, is mentioned there. */
  lemma MentionedAtEnd(a: string, sep: string, w: string)
    ensures Mentions(a + (sep + w), w)
  {
    var s := a + (sep + w);
    var i := |a| + |sep|;
    forall k | 0 <= k < |w| ensures Lower(s[i + k]) == Lower(w[k]) {
      assert s[i + k] == (sep + w)[|sep| + k] == w[k];
    }
    assert MatchesAt(s, i, w);
  }

  // ---------------------------------------------------------------------------
  // Reading back what formatAmount prints.

  /** A mention in the tail of a message is a mention in the whole message. */
  lemma MentionedInTail(a: string, tail: string, w: string)
    requires Mentions(tail, w)
    ensures Mentions(a + tail, w)
  {
    var i: nat :| MatchesAt(tail, i, w);
    var s := a + tail;
    forall k | 0 <= k < |w| ensures Lower(s[|a| + i + k]) == Lower(w[k]) {
      assert s[|a| + i + k] == tail[i + k];
    }
    assert MatchesAt(s, |a| + i, w);
  }

  /** What the parser reads from formatAmount's text printed after a marker and a space. */
  function ReadBack(amount: int): nat {
    var m := if amount < 0 then -amount else amount;
    if m % 10 == 0 then m / 100 * 100 else m
  }

  /** A fraction toString prints with at most one digit, then a space, cannot extend a numeral. */
  lemma ShortFractionEndsNumeral(ft: string, tail: string)
    requires ft == [] || (|ft| == 2 && ft[0] == '.')
    requires tail != [] && tail[0] == ' '
    ensures EndsNumeral(ft + tail)
  {
    if ft == [] {
      assert (ft + tail)[0] == ' ';
    } else {
      assert (ft + tail)[0] == '.' && (ft + tail)[2] == ' ';
    }
  }

  /** A fraction toString prints with two digits stands for the hundredths it was printed from. */
  lemma LongFractionValue(x: nat)
    requires x < 100 && x % 10 != 0
    ensures var ft := FractionText(x);
      |ft| == 3 && ft[0] == '.' && IsDigit(ft[1]) && IsDigit(ft[2]) && FractionValue(ft) == x
  {
  }

  /** The magnitude formatAmount prints and what the parser reads back from it. */
  lemma ReadBackOfMagnitude(amount: int, m: nat, w: nat, x: nat)
    requires m == if amount < 0 then -amount else amount
    requires w == m / 100 && x == m % 100
    ensures FormatAmount(amount) == InsertSeparators(NatToDigits(w), 0) + FractionText(x)
    ensures ReadBack(amount) == if x % 10 == 0 then w * 100 else w * 100 + x
  {
  }

  /** formatAmount's text followed by a tail that starts with a space, cut into the pieces the amount pattern reads. */
  lemma FormattedPieces(amount: int, tail: string) returns (d: string, f: string, rest: string)
    requires tail != [] && tail[0] == ' '
    ensures AllDigits(d) && |d| >= 1
    ensures f == [] || (|f| == 3 && f[0] == '.' && IsDigit(f[1]) && IsDigit(f[2]))
    ensures f == [] ==> EndsNumeral(rest)
    ensures FormatAmount(amount) + tail == Grouped(d) + f + rest
    ensures Value(d) * 100 + FractionValue(f) == ReadBack(amount)
  {
    var m: nat := if amount < 0 then -amount else amount;
    var w: nat, x: nat := m / 100, m % 100;
    ReadBackOfMagnitude(amount, m, w, x);
    d := NatToDigits(w);
    var ft := FractionText(x);
    SeparatorsAreGrouping(d);
    NatToDigitsValue(w);
    assert FormatAmount(amount) + tail == Grouped(d) + ft + tail;
    if x % 10 == 0 {
      f, rest := [], ft + tail;
      ShortFractionEndsNumeral(ft, tail);
      assert Grouped(d) + ft + tail == Grouped(d) + f + rest;
    } else {
      f, rest := ft, tail;
      LongFractionValue(x);
    }
  }

  /** The amount match and magnitude of a message holding formatAmount's text right after a marker and a space. */
  lemma FormattedNumeral(s: string, marker: string, amount: int, tail: string)
    requires marker in Markers
    requires tail != [] && tail[0] == ' '
    requires s == marker + " " + FormatAmount(amount) + tail
    ensures FindAmount(s, 0) == AmountAt(s, 0) && AmountAt(s, 0).Some?
    ensures Magnitude(s[AmountAt(s, 0).value.start..AmountAt(s, 0).value.end]) == ReadBack(amount)
  {
    var d, f, rest := FormattedPieces(amount, tail);
    var g := Grouped(d);
    assert s == (marker + " ") + (FormatAmount(amount) + tail);
    assert s == marker + " " + g + f + rest;
    GroupedAmountParses(s, marker, d, f, rest);
  }

  /**
   * formatAmount's text, put after a currency marker and a space in a message
   * whose remainder names a credit keyword, is read back as a credit of the
   * same amount, except that a fraction printed with one digit (".5" for
   * fifty hundredths) does not fit `\.\d{2}` and is dropped.
   */
  lemma FormatThenParse(marker: string, amount: int, tail: string, w: string, date: string)
    requires marker in Markers
    requires tail != [] && tail[0] == ' '
    requires w in CreditWords && Mentions(tail, w)
    ensures var s := marker + " " + FormatAmount(amount) + tail;
      ParseSms(s, date).Some? && ParseSms(s, date).value.isCredit
      && ParseSms(s, date).value.amount == ReadBack(amount)
  {
    var s := marker + " " + FormatAmount(amount) + tail;
    FormattedNumeral(s, marker, amount, tail);
    MentionedInTail(marker + " " + FormatAmount(amount), tail, w);
    assert IsCreditText(s);
    ParseWithMatch(s, date, AmountAt(s, 0).value);
  }

  /** With a debit keyword and no credit keyword in the remainder, the same amount is read back negated. */
  lemma FormatThenParseDebit(marker: string, amount: int, tail: string, w: string, date: string)
    requires marker in Markers
    requires tail != [] && tail[0] == ' '
    requires w in DebitWords && Mentions(tail, w)
    requires forall c :: c in CreditWords ==> !Mentions(marker + " " + FormatAmount(amount) + tail, c)
    ensures var s := marker + " " + FormatAmount(amount) + tail;
      ParseSms(s, date).Some? && !ParseSms(s, date).value.isCredit
      && ParseSms(s, date).value.amount == -(ReadBack(amount) as int)
  {
    var s := marker + " " + FormatAmount(amount) + tail;
    FormattedNumeral(s, marker, amount, tail);
    MentionedInTail(marker + " " + FormatAmount(amount), tail, w);
    NoCreditWord(s);
    DebitWord(s, w);
    ParseWithMatch(s, date, AmountAt(s, 0).value);
  }

  // ---------------------------------------------------------------------------
  // Worked example: the numeral of "Rs. 1,234.56" is 123456 hundredths.

  lemma GroupedOf1234()
    ensures Grouped("1234") == "1,234" && Value("1234") == 1234
  {
    assert Chunked("234") == ",234";
    assert Value("1") == 1;
    assert Value("12") == 12 by { assert "12"[..1] == "1"; }
    assert Value("123") == 123 by { assert "123"[..2] == "12"; }
    assert "1234"[..3] == "123";
  }

  /** The commas of "1,234.56" are dropped and the two fraction digits kept: 123456 hundredths. */
  lemma MagnitudeExample()
    ensures Magnitude("1,234.56") == 123456
  {
    GroupedOf1234();
    MagnitudeOfGrouped("1234", ".56");
    assert "1,234" + ".56" == "1,234.56";
  }
}
