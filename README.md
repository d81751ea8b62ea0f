# Expense tracker: SMS transaction parser and ledger

A Dafny model of the logic of a small expense-tracking app. The app keeps a
ledger of transaction records `{amount, description, date, isCredit}`. It can:

- read bank SMS messages and turn each one that names an amount and a
  credit or debit keyword into a record;
- add a record typed into a form;
- delete a record by index;
- show the credit total, the debit total and the balance, with the amounts
  grouped by thousands.

Amounts are exact integers counted in hundredths of a rupee (paise). A
numeral in a message has no fraction or exactly two fraction digits, so
counting in hundredths is exact. The record's `amount` is signed by
convention: not negative for a credit, not positive for a debit. Records read
from SMS messages always keep the convention (`SmsParser.ParseSms`), and so
do records typed into the form without a minus sign
(`AddExpense.AddedWellSigned`). A minus sign typed into a credit entry breaks
it: that credit is stored with a negative amount
(`AddExpense.NegativeCreditKept`).

Modules, one per concern:

- `Wrappers`: `Option`.
- `Text`: digits, white space, comma removal, decimal printing.
- `Expenses`: the record and its sign convention.
- `SmsParser`: `parseTransactionFromSMS`. The amount pattern
  `(?:INR|Rs\.?)\s*(\d+(:?\,\d+)*(:?\.\d{2})?)` with the `i` flag is written
  out as a leftmost search over greedy pieces. The keyword tests are
  case-insensitive substring searches.
- `SmsParserFacts`: what the parser reads back from messages holding grouped
  numerals, including the text `formatAmount` prints.
- `SmsNumerals`: every numeral the pattern captures, with comma groups of any
  length (lakh grouping too) and the optional colons: where the numeral ends,
  also when a comma or colon follows it without continuing it,
  and what parseFloat reads from it.
- `SmsExamples`: worked messages: a debit, a credit, a message without an
  amount, one without a keyword, one with both directions, a lakh amount and
  a colon.
- `AmountFormat`: `formatAmount` and a reference form of its comma rule.
- `Ledger`: the totals, delete, and the SMS merge step.
- `AddExpense`: the add-transaction form, `parseFloat` on its amount text,
  and `handleAddExpense`.

Points where the code's behaviour is easy to miss, and where the model
follows the code:

- The pattern's `(:?` groups (a typo for `(?:`) let an optional colon stand
  before each comma group and before the fraction.
- Comma groups may have any number of digits, not just three.
- The commas are removed from the numeral, but a colon stays. parseFloat then
  stops reading at the colon, so "Rs 1:,500" reads as 1. `GroupsEnd`,
  `FractionEnd` and `Magnitude` keep this behaviour; `SmsNumerals.MagnitudeAtColon`
  and `SmsExamples.ColonMessage` state it.
- The markers and keywords are matched anywhere, inside other words too.
- A credit keyword wins over a debit keyword.

## Model

| member | source | states |
|---|---|---|
| SmsParser.OccursFrom | screens/HomeScreen.js:75-76 | the left-to-right search finds w from a position exactly when a case-insensitive occurrence of w starts at or after it |
| SmsParser.LowerMatches | screens/HomeScreen.js:67-76 | the `i` flag: two characters compare equal after lower-casing exactly when they are equal or are the upper- and lower-case forms of one ASCII letter |
| SmsParser.IsCreditText | screens/HomeScreen.js:75 | the credit test is true exactly when one of the credit keywords occurs in the message, in any case |
| SmsParser.IsDebitText | screens/HomeScreen.js:76 | the debit test is true exactly when one of the debit keywords occurs in the message, in any case |
| SmsParser.MentionsAny | screens/HomeScreen.js:68-69 | an alternation of keywords tests true exactly when one of the keywords occurs somewhere in the text, in any case |
| SmsParser.MarkerEnd | screens/HomeScreen.js:67 | the marker alternative `INR` / `Rs` / `Rs.`, when it matches at p, ends after p and within the text |
| SmsParser.GroupsEnd | screens/HomeScreen.js:67 | the repeated comma groups (each with an optional colon) end at or after where they start, within the text |
| SmsParser.FractionEnd | screens/HomeScreen.js:67 | the optional two-digit fraction ends at or after where it starts, within the text |
| SmsParser.NumeralEnd | screens/HomeScreen.js:67 | the captured numeral starting with a digit always takes at least that digit |
| SmsParser.AmountAt | screens/HomeScreen.js:67 | a match found at p has its numeral strictly after the marker and inside the text |
| SmsParser.AmountAtSound | screens/HomeScreen.js:67 | a match found at p is one the pattern allows: a marker in any case, white space, a digit |
| SmsParser.AmountAtComplete | screens/HomeScreen.js:67 | wherever the pattern allows a marker, white space and a digit, the match at that position is found |
| SmsParser.MarkerEndOf | screens/HomeScreen.js:67 | where a marker is followed by white space and a digit, the marker scan stops right after that marker, taking "Rs." whole |
| SmsParser.AmountAtSpec | screens/HomeScreen.js:67 | a match exists at p if and only if the pattern can match at p |
| SmsParser.FindAmount | screens/HomeScreen.js:71 | `body.match` gives nothing exactly when the pattern matches nowhere from the start position; otherwise it gives the match at the leftmost matching position |
| SmsParser.ParseSms | screens/HomeScreen.js:66-86 | every parsed record agrees in sign with its direction and carries the description "SMS Transaction" and the given date |
| SmsParser.NoAmountNoTransaction | screens/HomeScreen.js:71-72 | a message where no marker is followed by white space and a digit gives no record |
| SmsParser.NoKeywordNoTransaction | screens/HomeScreen.js:75-78 | a message with none of the seven keywords gives no record |
| SmsParser.TransactionExactly | screens/HomeScreen.js:66-86 | a message gives a record if and only if the amount pattern matches somewhere and some keyword occurs somewhere |
| SmsParser.LeftmostMatchIsUsed | screens/HomeScreen.js:71 | the match the parser uses is the one at the leftmost position where the pattern can match |
| SmsParser.CreditWins | screens/HomeScreen.js:75-84 | with an amount and a credit keyword the record is a credit of the positive magnitude of the leftmost numeral, whatever debit keywords also occur |
| SmsParser.DebitOtherwise | screens/HomeScreen.js:75-84 | with an amount, a debit keyword and no credit keyword the record is a debit of the negated magnitude |
| SmsParser.CreditOfOpening | screens/HomeScreen.js:75-84 | a message whose leftmost match opens it, with numeral n, and that holds a credit keyword gives a credit of the magnitude of n |
| SmsParser.DebitOfOpening | screens/HomeScreen.js:75-84 | the same message with a debit keyword and no credit keyword gives a debit of the negated magnitude of n |
| SmsParserFacts.EndsNumeralAt | screens/HomeScreen.js:67 | after a numeral without a fraction, ended by nothing or by a character that is not a digit and starts neither a group round (",d", ":,d") nor a fraction (".dd", ":.dd"), neither the group rounds nor the fraction go on |
| SmsParserFacts.GroupsEndStops | screens/HomeScreen.js:67 | after a digit run, the greedy group rounds stop only at the end of the text or before a character that is not a digit and starts no further round |
| SmsParserFacts.NumeralStopsAt | screens/HomeScreen.js:67 | wherever the pattern stops a numeral that takes no fraction, what follows satisfies the ending condition the other lemmas require, so that condition is exact |
| SmsParserFacts.ChunksEnd | screens/HomeScreen.js:67 | the comma groups of the pattern consume exactly a run of ",ddd" groups followed by the end of the text or a character that is not a digit and starts no further group round; a comma or colon not followed by digits stops them |
| SmsParserFacts.GroupedDigitsEnd | screens/HomeScreen.js:67 | the digit run plus the comma groups consume exactly a numeral grouped by thousands, whenever what follows starts no further group round |
| SmsParserFacts.NumeralEndGrouped | screens/HomeScreen.js:67 | the captured numeral is exactly a grouped numeral and its ".dd" fraction, if any, whatever follows a fraction and, without one, whenever what follows does not continue the numeral ("Rs 1,000, debited" included) |
| SmsParserFacts.GroupedFractionRemoveCommas | screens/HomeScreen.js:74 | removing the commas from a grouped numeral with a fraction gives back its digits and the fraction |
| SmsParserFacts.MagnitudeOfGrouped | screens/HomeScreen.js:74-81 | the magnitude of a grouped numeral is the value of its digits in hundredths plus its two fraction digits |
| SmsParserFacts.AmountAtStart | screens/HomeScreen.js:67-71 | a message that starts with a marker, a space and a digit is matched at position 0 with its numeral right after the space |
| SmsParserFacts.GroupedAmountParses | screens/HomeScreen.js:67-74 | a grouped numeral after a marker and a space, followed by anything that does not continue it, is the leftmost match, and its magnitude is its value in hundredths |
| SmsParserFacts.FormattedNumeral | screens/HomeScreen.js:67-74 | the text formatAmount prints, after a marker and a space, is matched and read back, except that a one-digit fraction is dropped |
| SmsParserFacts.FormatThenParse | screens/HomeScreen.js:66-86 | a message of a marker, formatAmount's text and a tail with a credit keyword parses to a credit of that amount, except that a one-digit fraction is dropped |
| SmsParserFacts.FormatThenParseDebit | screens/HomeScreen.js:66-86 | the same message with a debit keyword and no credit keyword parses to the negated amount |
| SmsParserFacts.MagnitudeExample | screens/HomeScreen.js:74-81 | "1,234.56" has magnitude 123456 hundredths |
| Text.RemoveCommas | screens/HomeScreen.js:74 | removing commas never lengthens the text |
| Text.RemoveCommasDropsAll | screens/HomeScreen.js:74 | no comma is left after the replacement |
| Text.RemoveCommasKeepsPlain | screens/HomeScreen.js:74 | a text without commas is unchanged |
| Text.RemoveCommasConcat | screens/HomeScreen.js:74 | the replacement distributes over concatenation |
| Text.SpaceRunEnd | screens/HomeScreen.js:67 | `\s*` ends at the first character that is not white space, or at the end of the text |
| Text.NatToDigitsValue | screens/HomeScreen.js:23-24 | reading back the decimal digits toString prints for n gives n |
| Expenses.SignedAmount | screens/HomeScreen.js:81 | a credit keeps its magnitude; a debit's amount is the magnitude negated |
| Expenses.SignedAmountWellSigned | screens/HomeScreen.js:80-84 | a non-negative magnitude signed by its direction agrees with that direction |
| AmountFormat.FractionText | screens/HomeScreen.js:23-24 | toString prints no fraction for a whole amount, otherwise a point and digits |
| SmsNumerals.Rounds | screens/HomeScreen.js:67 | the text of the comma groups is empty exactly when there are none, and otherwise starts with a comma or a colon |
| SmsNumerals.ReadDigits | screens/HomeScreen.js:74-81 | the digits parseFloat reads are digits and include at least the lead digits |
| SmsNumerals.RoundsEnd | screens/HomeScreen.js:67 | `(:?\,\d+)*` consumes exactly a run of comma groups of any length, each with an optional colon, when what follows cannot continue them |
| SmsNumerals.FractionEndOf | screens/HomeScreen.js:67 | `(:?\.\d{2})?` consumes exactly a ".dd" or ":.dd" fraction, or nothing when none starts there, and no group round continues at that position |
| SmsNumerals.NumeralEndOf | screens/HomeScreen.js:67 | the captured numeral ends exactly after its digits, its comma groups of any length and its fraction, whenever what follows does not continue it; a comma or colon not followed by digits, as in "Rs 500, debited", ends it |
| SmsNumerals.MagnitudeAtColon | screens/HomeScreen.js:74-81 | parseFloat stops at a colon, so whatever follows the lead digits and a colon adds nothing |
| SmsNumerals.MagnitudeOfColonFraction | screens/HomeScreen.js:74-81 | a ":.dd" fraction is not read, so only the whole digits count |
| SmsNumerals.MagnitudeOfNumeral | screens/HomeScreen.js:74-81 | the magnitude of any captured numeral is the value of its digits up to the first colon in hundredths, plus the fraction only when no colon occurs |
| SmsNumerals.NumeralAmountAt | screens/HomeScreen.js:67-71 | a message of a marker, a space, any captured numeral and a rest that does not continue it is matched at position 0 with exactly that numeral |
| SmsNumerals.NumeralOpens | screens/HomeScreen.js:67-74 | such a message's leftmost match starts at 0 and captures the numeral |
| SmsNumerals.CreditOfNumeral | screens/HomeScreen.js:66-86 | such a message with a credit keyword gives a credit of the numeral's magnitude |
| SmsNumerals.DebitOfNumeral | screens/HomeScreen.js:66-86 | such a message with a debit keyword and no credit keyword gives a debit of the negated magnitude |
| SmsExamples.DebitMessage | screens/HomeScreen.js:66-86 | "Rs. 500 debited from your account" gives a debit of -500 rupees with the SMS description and the date |
| SmsExamples.CreditMessage | screens/HomeScreen.js:66-86 | "INR 1,250.50 credited to your account" gives a credit of 1250.50 rupees |
| SmsExamples.NoMarkerMessage | screens/HomeScreen.js:71-72 | "Your OTP is 4512" has no amount marker and gives no record |
| SmsExamples.NoKeywordMessage | screens/HomeScreen.js:75-78 | "Rs. 200 balance available" has an amount but no keyword and gives no record |
| SmsExamples.CreditPrecedenceMessage | screens/HomeScreen.js:75-84 | "Rs. 300 credited and Rs. 100 debited" gives a credit of the first amount, 300 rupees |
| SmsExamples.LakhMessage | screens/HomeScreen.js:66-86 | "INR 1,00,000.00 debited" captures the whole lakh-grouped numeral and gives a debit of -100000 rupees |
| SmsExamples.ColonMessage | screens/HomeScreen.js:66-86 | "Rs 1:,500 debited" gives a debit of only -1 rupee, since parseFloat stops at the colon |
| SmsExamples.TrailingCommaMessage | screens/HomeScreen.js:66-86 | "Rs 500, debited" captures "500", ending before the comma, and gives a debit of -500 rupees |
| AmountFormat.InsertSeparators | screens/HomeScreen.js:25 | the comma rule keeps every digit, so the result is at least as long as the digits, and over digits it gives only digits and commas |
| AmountFormat.FormatAmount | screens/HomeScreen.js:22-26 | the printed amount carries no sign: it starts with a digit and holds only digits, commas and a decimal point |
| AmountFormat.SeparatorsInLead | screens/HomeScreen.js:25 | the comma rule inserts nothing among the leading one to three digits |
| AmountFormat.SeparatorsInChunks | screens/HomeScreen.js:25 | from a position a multiple of three digits from the end, the comma rule gives ",ddd" groups |
| AmountFormat.SeparatorsAreGrouping | screens/HomeScreen.js:25 | the comma rule `\B(?=(\d{3})+(?!\d))` equals the reference grouping: one to three lead digits, then ",ddd" groups |
| AmountFormat.GroupedRemoveCommas | screens/HomeScreen.js:22-26 | removing the commas from the grouping gives back the digits |
| AmountFormat.GroupedWellGrouped | screens/HomeScreen.js:22-26 | the first group has one to three digits and every later group exactly three |
| AmountFormat.GroupedEnds | screens/HomeScreen.js:22-26 | the grouping starts and ends with a digit, never with a comma |
| AmountFormat.FormatAmountIgnoresSign | screens/HomeScreen.js:23 | formatAmount gives the same text for an amount and its negation |
| AmountFormat.FormatWholeAmount | screens/HomeScreen.js:22-26 | for a whole amount the text is well grouped, starts and ends with a digit, and without commas is the decimal digits of its absolute value |
| AmountFormat.FormatAmountExample | screens/HomeScreen.js:22-26 | 1234567 rupees print as "1,234,567" |
| AmountFormat.FormatNegativeExample | screens/HomeScreen.js:22-26 | -42 rupees print as "42" |
| Ledger.SumAmounts | screens/HomeScreen.js:28-42 | the sum of amounts that are all non-negative is non-negative, and of amounts all non-positive is non-positive |
| Ledger.TotalCredit | screens/HomeScreen.js:28-32 | when every record agrees in sign with its direction the credit total is at least 0 |
| Ledger.TotalDebit | screens/HomeScreen.js:34-38 | when every record agrees in sign with its direction the debit total is at most 0 |
| Ledger.TotalBalance | screens/HomeScreen.js:40-42 | when every record agrees in sign with its direction the balance lies between the debit total and the credit total |
| Ledger.Credits | screens/HomeScreen.js:30 | the credit filter keeps only credit records, each taken from the ledger |
| Ledger.Debits | screens/HomeScreen.js:36 | the debit filter keeps only non-credit records, each taken from the ledger |
| Ledger.EmptyLedgerTotals | screens/HomeScreen.js:28-42 | on the empty ledger the credit total, debit total and balance are all 0 |
| Ledger.FiltersPartition | screens/HomeScreen.js:28-38 | the two filters together hold every record once |
| Ledger.BalanceIsSumOfAll | screens/HomeScreen.js:40-42 | the balance, credit total plus debit total, is the sum of all amounts |
| Ledger.TotalsOfConcat | screens/HomeScreen.js:28-42 | each total of two ledgers joined is the sum of their totals |
| Ledger.AppendDebitKeepsCredit | screens/HomeScreen.js:28-38 | appending a debit leaves the credit total unchanged and moves the debit total by its amount |
| Ledger.AppendCreditKeepsDebit | screens/HomeScreen.js:28-38 | appending a credit leaves the debit total unchanged and moves the credit total by its amount |
| Ledger.Delete | screens/HomeScreen.js:17-20 | an in-range index removes exactly that element and keeps the rest in order; any other index leaves the ledger unchanged |
| Ledger.DeleteRemovesOne | screens/HomeScreen.js:18 | an in-range delete shortens the ledger by one and removes exactly one copy of that record |
| Ledger.DeleteShifts | screens/HomeScreen.js:18 | after an in-range delete, records before the index stay put and later ones move down by one |
| Ledger.Parsed | screens/HomeScreen.js:112-113 | one message gives no record when it does not parse and exactly its parse otherwise |
| Ledger.NewTransactions | screens/HomeScreen.js:111-113 | the new records are at most one per message, each with the SMS description, the date and a sign agreeing with its direction |
| Ledger.NewTransactionsFromMessages | screens/HomeScreen.js:111-113 | every new record is the parse of some message of the batch |
| Ledger.NewTransactionsConcat | screens/HomeScreen.js:111-113 | the records of two batches joined are those of the first followed by those of the second, so message order is kept |
| Ledger.NothingParsesNothingNew | screens/HomeScreen.js:111-113 | a batch where no message parses gives no records |
| Ledger.ImportSms | screens/HomeScreen.js:115-116 | the ledger after the merge step is the ledger it is given (the snapshot the import began from) followed by the new records |
| Ledger.ImportKeepsLedger | screens/HomeScreen.js:116 | the merge keeps the old records in place and in order ahead of the new ones |
| Ledger.ImportNothingParses | screens/HomeScreen.js:111-117 | a batch where no message parses leaves the ledger unchanged |
| Ledger.ImportTwice | screens/HomeScreen.js:111-117 | importing the same batch twice adds its records twice, with no deduplication |
| Ledger.ImportTotals | screens/HomeScreen.js:111-117 | the merge moves the balance by exactly the sum of the imported amounts |
| AddExpense.InitialForm | screens/AddExpense.js:15-18 | the form starts with empty amount and description, today's date, and the debit side selected |
| AddExpense.ParseFloat | screens/AddExpense.js:28 | parseFloat reads a number exactly when, after white space and a sign, a digit comes first or right after a point; a minus sign gives a non-positive value, otherwise non-negative |
| AddExpense.ParseFloatOfToString | screens/AddExpense.js:28 | parseFloat reads back the decimal text printed for a non-negative amount |
| AddExpense.ParseFloatOfNegativeToString | screens/AddExpense.js:28 | parseFloat reads back the decimal text printed for any magnitude after a minus sign, as its negation ("-0" as 0) |
| AddExpense.RecordOf | screens/AddExpense.js:27-32 | the new record copies description, date and direction from the form; its amount is the number read for a credit and its negation for a debit |
| AddExpense.HandleAddExpense | screens/AddExpense.js:21-36 | an empty amount or description gives the "Invalid Input" alert and leaves the ledger; an unreadable amount appends a NaN record with the form's fields; otherwise exactly one record is appended after the unchanged old records |
| AddExpense.UntoggledIsDebit | screens/AddExpense.js:18-32 | a form left on its initial setting records a debit dated today, with the number read negated |
| AddExpense.AddedWellSigned | screens/AddExpense.js:27-32 | without a minus sign in the amount text the new record agrees in sign with its direction |
| AddExpense.NegativeCreditKept | screens/AddExpense.js:28 | a minus sign typed into a credit entry is kept, so that credit is recorded with a negative amount |
| AddExpense.AddThenDelete | screens/AddExpense.js:34 | deleting the record just added gives back the ledger as it was |
| AddExpense.AddTotals | screens/AddExpense.js:34 | adding moves the balance by the new amount, and leaves the other side's total unchanged |

## Left out

- The SMS permission request and the platform check (screens/HomeScreen.js:44-64) are left out. They are device APIs.
- The device inbox query is left out: the `SmsAndroid.list` filter (unread inbox, keyword body filter, at most 10 messages), its callbacks and `JSON.parse` (screens/HomeScreen.js:96-110). It is asynchronous I/O. `Ledger.ImportSms` takes the list of message bodies as a parameter. The filter decides which messages are fetched at all: its `bodyRegex` (screens/HomeScreen.js:98) lists every keyword of the parser except "paid", so a message whose only keyword is "paid" is never fetched, although `SmsParser.ParseSms` reads it as a debit.
- `Ledger.ImportSms`: its ledger `l` is the ledger as it was when the import began. The source merges into the `expenses` snapshot captured when the screen rendered (screens/HomeScreen.js:15, 116), and reads it only after the permission request and inside the asynchronous inbox callback (screens/HomeScreen.js:89, 104-118). A delete (screens/HomeScreen.js:17-19) or an add (screens/AddExpense.js:34) that commits while the import is pending is overwritten by the merge: the deleted record comes back, or the added one is lost. The model does not capture these lost updates, because it has no interleaving of the screens.
- Date stamps (`toLocaleDateString`, `toISOString`) come from the clock and the locale. Both are an opaque `date` parameter. `Ledger.NewTransactions` and `Ledger.ImportSms` stamp a whole batch with one `date`. The source reads the clock once per message (screens/HomeScreen.js:83, inside the map at 111-113), so a batch parsed across midnight can carry two dates; the model does not capture this.
- Floating point is left out. Amounts are exact hundredths, so the sums have no rounding drift. Three effects of floats are not modelled:
  - `Number.prototype.toString` switches to exponent notation for very large amounts;
  - the comma rule would also group fraction digits when there are four or more, which cannot happen with two fraction digits;
  - totals of floats may show drift such as 0.30000000000000004.
- AddExpense.ParseFloat keeps only two fraction digits and cuts off later ones, where a float keeps them. It does not read exponent notation ("1e3") or "Infinity".
- AddExpense.HandleAddExpense does not give the NaN record's amount a value, because NaN is not an integer. The outcome `NaNAppended` keeps the old ledger and the appended record's other fields.
- `navigation.goBack()` after adding (screens/AddExpense.js:35) is left out. Navigation is UI wiring.
- The React context and its persistence are left out: context/ExpensesContext.js and the storage helper it uses. App.js, all JSX and styles, and the `useState` plumbing of both screens are left out too.
