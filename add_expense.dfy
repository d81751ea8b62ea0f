/**
 * The add-transaction screen: a form with an amount text, a description, a
 * date and a credit/debit toggle, and the handler that validates it, builds
 * the record and appends it to the ledger.
 */
module AddExpense {
  import opened Wrappers
  import opened Text
  import opened Expenses
  import opened Ledger
  import opened AmountFormat

  /** What the form holds when the user presses the add button. */
  datatype Form = Form(amount: string, description: string, date: string, isCredit: bool)

  /** The form as the screen first shows it: both texts empty, today's date, the debit side selected. */
  function InitialForm(today: string): (f: Form)
    ensures f.amount == [] && f.description == [] && f.date == today && !f.isCredit
  {
    Form([], [], today, false)
  }

  /** A dialog: title and message. */
  datatype Alert = Alert(title: string, message: string)

  /** The dialog shown when a field is left empty. */
  const MissingFields: Alert := Alert("Invalid Input", "Please fill in all fields")

  /**
   * What pressing the add button does to the ledger. `NaNAppended` is the case
   * where the amount text is not read as a number at all: a record is still
   * appended, with the form's other fields and a NaN amount, which has no
   * value among the integers; the outcome keeps the ledger it was appended to
   * and the fields it has.
   */
  datatype AddOutcome =
    | Added(ledger: seq<Expense>)
    | Rejected(ledger: seq<Expense>, alert: Alert)
    | NaNAppended(before: seq<Expense>, description: string, date: string, isCredit: bool)

  // ---------------------------------------------------------------------------
  // parseFloat, in hundredths.

  /** Where the number proper starts: after leading white space and one optional sign. */
  function NumberStart(text: string): (j: nat)
    ensures j <= |text|
  {
    var i := SpaceRunEnd(text, 0);
    if i < |text| && (text[i] == '-' || text[i] == '+') then i + 1 else i
  }

  /** The text has a minus sign in front of its number. */
  predicate Negated(text: string) {
    var i := SpaceRunEnd(text, 0);
    i < |text| && text[i] == '-'
  }

  /** The hundredths the first two digits after the point stand for; later digits are cut off. */
  function Hundredths(frac: string): (h: nat)
    requires AllDigits(frac)
    ensures h < 100
  {
    if frac == [] then 0
    else if |frac| == 1 then DigitValue(frac[0]) * 10
    else DigitValue(frac[0]) * 10 + DigitValue(frac[1])
  }

  /** The digits after a point at k, if there is one. */
  function FractionDigits(text: string, k: nat): (frac: string)
    requires k <= |text|
    ensures AllDigits(frac)
  {
    if k < |text| && text[k] == '.' then text[k + 1..DigitRunEnd(text, k + 1)] else []
  }

  /**
   * parseFloat on a decimal text, in hundredths: leading white space, an
   * optional sign, then the longest prefix of digits, a point and digits.
   * Nothing is read, and there is no number, unless a digit comes before or
   * right after the point.
   */
  function ParseFloat(text: string): (r: Option<int>)
    ensures var j := NumberStart(text);
      r.Some? <==> (j < |text| && IsDigit(text[j])) || (j + 1 < |text| && text[j] == '.' && IsDigit(text[j + 1]))
    ensures r.Some? && Negated(text) ==> r.value <= 0
    ensures r.Some? && !Negated(text) ==> r.value >= 0
  {
    var j := NumberStart(text);
    var k := DigitRunEnd(text, j);
    var whole := if k == j then 0 else Value(text[j..k]);
    var frac := FractionDigits(text, k);
    if k == j && frac == [] then None
    else
      var magnitude := whole * 100 + Hundredths(frac);
      Some(if Negated(text) then -magnitude else magnitude)
  }

  /** A digit run found at p, followed by nothing or by a point, ends where the point starts. */
  lemma DigitsThenRest(t: string, p: nat, d: string, f: string)
    requires AllDigits(d) && 1 <= |d|
    requires f == [] || f[0] == '.'
    requires p <= |t| && t[p..] == d + f
    ensures DigitRunEnd(t, p) == p + |d| && t[p..p + |d|] == d && t[p + |d|..] == f
  {
    forall k | p <= k < p + |d| ensures IsDigit(t[k]) { assert t[k] == t[p..][k - p] == d[k - p]; }
    if f != [] {
      assert t[p + |d|] == t[p..][|d|] == '.';
    }
    DigitRunEndAt(t, p, p + |d|);
    assert t[p..p + |d|] == t[p..][..|d|] == d;
    assert t[p + |d|..] == t[p..][|d|..] == f;
  }

  /** The fraction digits read at k when the text from k on is nothing, or a point and digits. */
  lemma FractionAt(t: string, k: nat, f: string)
    requires f == [] || (f[0] == '.' && AllDigits(f[1..]))
    requires k <= |t| && t[k..] == f
    ensures FractionDigits(t, k) == if f == [] then [] else f[1..]
  {
    if f != [] {
      assert t[k] == f[0];
      assert t[k + 1..] == f[1..];
      forall i | k + 1 <= i < |t| ensures IsDigit(t[i]) { assert t[i] == f[1..][i - k - 1]; }
      DigitRunEndAt(t, k + 1, |t|);
    }
  }

  /** A digit run followed by nothing or by a point and digits, found at p, splits where the run ends. */
  lemma NumeralPieces(t: string, p: nat, d: string, f: string)
    requires AllDigits(d) && 1 <= |d|
    requires f == [] || (f[0] == '.' && AllDigits(f[1..]))
    requires p <= |t| && t[p..] == d + f
    ensures DigitRunEnd(t, p) == p + |d| && t[p..p + |d|] == d
    ensures FractionDigits(t, DigitRunEnd(t, p)) == if f == [] then [] else f[1..]
  {
    DigitsThenRest(t, p, d, f);
    FractionAt(t, p + |d|, f);
  }

  /** The fraction toString prints stands for the hundredths it was printed from. */
  lemma HundredthsOfFractionText(x: nat)
    requires x < 100
    ensures var f := FractionText(x); Hundredths(if f == [] then [] else f[1..]) == x
  {
  }

  /** The whole digits and the fraction digits of toString's rendering of w units and x hundredths, found at p. */
  lemma RenderingPieces(t: string, p: nat, w: nat, x: nat)
    requires x < 100
    requires p <= |t| && t[p..] == NatToDigits(w) + FractionText(x)
    ensures var k := DigitRunEnd(t, p);
      p < k && Value(t[p..k]) == w && Hundredths(FractionDigits(t, k)) == x
  {
    var d := NatToDigits(w);
    var f := FractionText(x);
    NatToDigitsValue(w);
    NumeralPieces(t, p, d, f);
    HundredthsOfFractionText(x);
    var k := DigitRunEnd(t, p);
    assert k == p + |d| && t[p..k] == d;
  }

  /** A text whose number, from where it starts, is toString's rendering of n is read as n, with its sign. */
  lemma ParseFloatOfRendering(t: string, p: nat, n: nat)
    requires p <= |t| && NumberStart(t) == p
    requires t[p..] == NatToDigits(n / 100) + FractionText(n % 100)
    ensures ParseFloat(t) == Some(if Negated(t) then -(n as int) else n)
  {
    RenderingPieces(t, p, n / 100, n % 100);
    var k := DigitRunEnd(t, p);
    var magnitude := Value(t[p..k]) * 100 + Hundredths(FractionDigits(t, k));
    assert magnitude == n by { SplitHundredths(n, Value(t[p..k]), Hundredths(FractionDigits(t, k))); }
  }

  /** Whole units and hundredths put back together. */
  lemma SplitHundredths(n: nat, whole: nat, h: nat)
    requires whole == n / 100 && h == n % 100
    ensures whole * 100 + h == n
  {
  }

  /** parseFloat reads back what toString prints for a non-negative amount. */
  lemma ParseFloatOfToString(n: nat)
    ensures ParseFloat(NatToDigits(n / 100) + FractionText(n % 100)) == Some(n)
  {
    var t := NatToDigits(n / 100) + FractionText(n % 100);
    assert IsDigit(t[0]) && !IsSpace(t[0]);
    SpaceRunEndAt(t, 0, 0);
    assert t[0..] == t;
    ParseFloatOfRendering(t, 0, n);
  }

  /** parseFloat reads back what toString prints for a negative amount. */
  lemma ParseFloatOfNegativeToString(n: nat)
    ensures ParseFloat("-" + NatToDigits(n / 100) + FractionText(n % 100)) == Some(-(n as int))
  {
    var t := "-" + NatToDigits(n / 100) + FractionText(n % 100);
    assert !IsSpace(t[0]);
    SpaceRunEndAt(t, 0, 0);
    assert t[1..] == NatToDigits(n / 100) + FractionText(n % 100);
    ParseFloatOfRendering(t, 1, n);
  }

  // ---------------------------------------------------------------------------
  // handleAddExpense.

  /** The record the form describes, once its amount text is read as `value`. */
  function RecordOf(form: Form, value: int): (e: Expense)
    ensures e.description == form.description && e.date == form.date && e.isCredit == form.isCredit
    ensures form.isCredit ==> e.amount == value
    ensures !form.isCredit ==> e.amount == -value
  {
    Expense(SignedAmount(value, form.isCredit), form.description, form.date, form.isCredit)
  }

  /** handleAddExpense on the current ledger and form. */
  function HandleAddExpense(ledger: seq<Expense>, form: Form): (o: AddOutcome)
    ensures o.Rejected? <==> form.amount == [] || form.description == []
    ensures o.Rejected? ==> o.ledger == ledger && o.alert == MissingFields
    ensures o.NaNAppended? <==> !o.Rejected? && ParseFloat(form.amount).None?
    ensures o.NaNAppended? ==> o.before == ledger && o.description == form.description
    ensures o.NaNAppended? ==> o.date == form.date && o.isCredit == form.isCredit
    ensures o.Added? ==> ParseFloat(form.amount).Some?
    ensures o.Added? ==> |o.ledger| == |ledger| + 1 && o.ledger[..|ledger|] == ledger
    ensures o.Added? ==> o.ledger[|ledger|] == RecordOf(form, ParseFloat(form.amount).value)
  {
    if form.amount == [] || form.description == [] then Rejected(ledger, MissingFields)
    else
      match ParseFloat(form.amount)
      case None => NaNAppended(ledger, form.description, form.date, form.isCredit)
      case Some(value) => Added(ledger + [RecordOf(form, value)])
  }

  /** A form left on its initial debit setting records a debit: the amount read, negated. */
  lemma UntoggledIsDebit(ledger: seq<Expense>, today: string, amount: string, description: string)
    requires amount != [] && description != [] && ParseFloat(amount).Some?
    ensures var o := HandleAddExpense(ledger, InitialForm(today).(amount := amount, description := description));
      o.Added? && !o.ledger[|ledger|].isCredit && o.ledger[|ledger|].amount == -ParseFloat(amount).value
      && o.ledger[|ledger|].date == today
  {
  }

  /** Without a minus sign in the amount text, the new record's sign agrees with the toggle. */
  lemma AddedWellSigned(ledger: seq<Expense>, form: Form)
    requires HandleAddExpense(ledger, form).Added?
    requires !Negated(form.amount)
    ensures WellSigned(HandleAddExpense(ledger, form).ledger[|ledger|])
  {
  }

  /**
   * A minus sign typed into a credit entry is kept: the credit is recorded
   * with a negative amount, against the sign convention of every other
   * record.
   */
  lemma NegativeCreditKept(ledger: seq<Expense>, n: nat, description: string, date: string)
    requires n > 0 && description != []
    ensures var form := Form("-" + NatToDigits(n / 100) + FractionText(n % 100), description, date, true);
      var o := HandleAddExpense(ledger, form);
      o.Added? && o.ledger[|ledger|].isCredit && o.ledger[|ledger|].amount == -(n as int)
      && !WellSigned(o.ledger[|ledger|])
  {
    ParseFloatOfNegativeToString(n);
  }

  /** Deleting the record just added gives back the ledger as it was. */
  lemma AddThenDelete(ledger: seq<Expense>, form: Form)
    requires HandleAddExpense(ledger, form).Added?
    ensures Delete(HandleAddExpense(ledger, form).ledger, |ledger|) == ledger
  {
    var l := HandleAddExpense(ledger, form).ledger;
    assert l[..|ledger|] == ledger;
  }

  /** Adding moves the balance by the new record's amount and the matching side's total with it. */
  lemma AddTotals(ledger: seq<Expense>, form: Form)
    requires HandleAddExpense(ledger, form).Added?
    ensures var l := HandleAddExpense(ledger, form).ledger;
      var e := l[|ledger|];
      TotalBalance(l) == TotalBalance(ledger) + e.amount
      && (e.isCredit ==> TotalDebit(l) == TotalDebit(ledger))
      && (!e.isCredit ==> TotalCredit(l) == TotalCredit(ledger))
  {
    var l := HandleAddExpense(ledger, form).ledger;
    var e := l[|ledger|];
    assert l == ledger + [e];
    TotalsOfConcat(ledger, [e]);
    SingleTotals(e);
  }
}
