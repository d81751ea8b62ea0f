/**
 * The ledger the home screen shows and edits: the totals it displays, removal
 * of one record by its position, and the merge of records parsed from a batch
 * of bank messages. Each update builds a new list and hands the whole of it
 * over, so each is a function from one sequence of records to the next.
 */
module Ledger {
  import opened Wrappers
  import opened Expenses
  import opened SmsParser

  // ---------------------------------------------------------------------------
  // Totals.

  /**
   * `reduce((sum, e) => sum + e.amount, 0)`: the amounts added left to right.
   * A sum of amounts that are all of one sign has that sign.
   */
  function SumAmounts(l: seq<Expense>): (r: int)
    ensures (forall i :: 0 <= i < |l| ==> l[i].amount >= 0) ==> r >= 0
    ensures (forall i :: 0 <= i < |l| ==> l[i].amount <= 0) ==> r <= 0
    decreases |l|
  {
    if l == [] then 0 else SumAmounts(l[..|l| - 1]) + l[|l| - 1].amount
  }

  /** `filter(e => e.isCredit)`: the credit records, in ledger order. */
  function Credits(l: seq<Expense>): (r: seq<Expense>)
    ensures |r| <= |l|
    ensures forall i :: 0 <= i < |r| ==> r[i].isCredit && r[i] in l
    decreases |l|
  {
    if l == [] then []
    else Credits(l[..|l| - 1]) + (if l[|l| - 1].isCredit then [l[|l| - 1]] else [])
  }

  /** `filter(e => !e.isCredit)`: the debit records, in ledger order. */
  function Debits(l: seq<Expense>): (r: seq<Expense>)
    ensures |r| <= |l|
    ensures forall i :: 0 <= i < |r| ==> !r[i].isCredit && r[i] in l
    decreases |l|
  {
    if l == [] then []
    else Debits(l[..|l| - 1]) + (if l[|l| - 1].isCredit then [] else [l[|l| - 1]])
  }

  /** Every record's sign agrees with its direction. */
  predicate AllWellSigned(l: seq<Expense>) {
    forall i :: 0 <= i < |l| ==> WellSigned(l[i])
  }

  /** getTotalCredit: never negative while every sign agrees with its direction. */
  function TotalCredit(l: seq<Expense>): (r: int)
    ensures AllWellSigned(l) ==> r >= 0
  {
    SumAmounts(Credits(l))
  }

  /** getTotalDebit: never positive while every sign agrees with its direction. */
  function TotalDebit(l: seq<Expense>): (r: int)
    ensures AllWellSigned(l) ==> r <= 0
  {
    SumAmounts(Debits(l))
  }

  /** getTotalBalance: between the debit total and the credit total while every sign agrees with its direction. */
  function TotalBalance(l: seq<Expense>): (r: int)
    ensures AllWellSigned(l) ==> TotalDebit(l) <= r <= TotalCredit(l)
  {
    TotalCredit(l) + TotalDebit(l)
  }

  /** All three totals of the empty ledger are 0. */
  lemma EmptyLedgerTotals()
    ensures TotalCredit([]) == 0 && TotalDebit([]) == 0 && TotalBalance([]) == 0
  {
  }

  /** The sum of a concatenation is the sum of the parts. */
  lemma {:induction false} SumAmountsConcat(a: seq<Expense>, b: seq<Expense>)
    ensures SumAmounts(a + b) == SumAmounts(a) + SumAmounts(b)
    decreases |b|
  {
    if b == [] {
      assert a + b == a;
    } else {
      var b' := b[..|b| - 1];
      assert (a + b)[..|a + b| - 1] == a + b';
      SumAmountsConcat(a, b');
    }
  }

  /** The filters distribute over concatenation. */
  lemma {:induction false} FiltersConcat(a: seq<Expense>, b: seq<Expense>)
    ensures Credits(a + b) == Credits(a) + Credits(b)
    ensures Debits(a + b) == Debits(a) + Debits(b)
    decreases |b|
  {
    if b == [] {
      assert a + b == a;
    } else {
      var b' := b[..|b| - 1];
      assert (a + b)[..|a + b| - 1] == a + b';
      FiltersConcat(a, b');
    }
  }

  /** Every record is in exactly one of the two filters. */
  lemma {:induction false} FiltersPartition(l: seq<Expense>)
    ensures multiset(Credits(l)) + multiset(Debits(l)) == multiset(l)
    decreases |l|
  {
    if l != [] {
      var l' := l[..|l| - 1];
      FiltersPartition(l');
      assert l == l' + [l[|l| - 1]];
    }
  }

  /** The displayed balance is the plain sum of every amount in the ledger. */
  lemma {:induction false} BalanceIsSumOfAll(l: seq<Expense>)
    ensures TotalBalance(l) == SumAmounts(l)
    decreases |l|
  {
    if l != [] {
      var l' := l[..|l| - 1];
      var x := l[|l| - 1];
      BalanceIsSumOfAll(l');
      assert SumAmounts(l) == SumAmounts(l') + x.amount;
      if x.isCredit {
        assert Credits(l) == Credits(l') + [x] && Debits(l) == Debits(l');
        SumAmountsConcat(Credits(l'), [x]);
      } else {
        assert Debits(l) == Debits(l') + [x] && Credits(l) == Credits(l');
        SumAmountsConcat(Debits(l'), [x]);
      }
    }
  }

  /** The totals of a concatenation are the totals of the parts. */
  lemma TotalsOfConcat(a: seq<Expense>, b: seq<Expense>)
    ensures TotalCredit(a + b) == TotalCredit(a) + TotalCredit(b)
    ensures TotalDebit(a + b) == TotalDebit(a) + TotalDebit(b)
    ensures TotalBalance(a + b) == TotalBalance(a) + TotalBalance(b)
  {
    FiltersConcat(a, b);
    SumAmountsConcat(Credits(a), Credits(b));
    SumAmountsConcat(Debits(a), Debits(b));
  }

  /** The totals of a one-record ledger: its amount on its own side, 0 on the other. */
  lemma SingleTotals(e: Expense)
    ensures TotalCredit([e]) == if e.isCredit then e.amount else 0
    ensures TotalDebit([e]) == if e.isCredit then 0 else e.amount
  {
    assert [e][..0] == [];
    var c := Credits([e]);
    var d := Debits([e]);
    assert c == if e.isCredit then [e] else [];
    assert d == if e.isCredit then [] else [e];
    assert SumAmounts([e]) == e.amount by { assert [e][..0] == []; }
  }

  /** Appending a debit leaves the credit total alone and moves the debit total by its amount. */
  lemma AppendDebitKeepsCredit(l: seq<Expense>, e: Expense)
    requires !e.isCredit
    ensures TotalCredit(l + [e]) == TotalCredit(l)
    ensures TotalDebit(l + [e]) == TotalDebit(l) + e.amount
  {
    TotalsOfConcat(l, [e]);
    SingleTotals(e);
  }

  /** Appending a credit leaves the debit total alone and moves the credit total by its amount. */
  lemma AppendCreditKeepsDebit(l: seq<Expense>, e: Expense)
    requires e.isCredit
    ensures TotalDebit(l + [e]) == TotalDebit(l)
    ensures TotalCredit(l + [e]) == TotalCredit(l) + e.amount
  {
    TotalsOfConcat(l, [e]);
    SingleTotals(e);
  }

  // ---------------------------------------------------------------------------
  // handleDelete.

  /** `filter((_, idx) => idx !== index)`: every record except the one at `index`. */
  function Delete(l: seq<Expense>, index: int): (r: seq<Expense>)
    ensures 0 <= index < |l| ==> r == l[..index] + l[index + 1..]
    ensures !(0 <= index < |l|) ==> r == l
    decreases |l|
  {
    if l == [] then []
    else
      var l' := l[..|l| - 1];
      var r' := Delete(l', index);
      assert 0 <= index < |l'| ==> l[..index] + l[index + 1..] == r' + [l[|l| - 1]];
      r' + (if index == |l| - 1 then [] else [l[|l| - 1]])
  }

  /** Deleting an index in range drops exactly one record: the one at that index. */
  lemma DeleteRemovesOne(l: seq<Expense>, index: int)
    requires 0 <= index < |l|
    ensures |Delete(l, index)| == |l| - 1
    ensures multiset(Delete(l, index)) + multiset{l[index]} == multiset(l)
  {
    RemoveAtMultiset(l, index);
  }

  lemma RemoveAtMultiset(l: seq<Expense>, index: nat)
    requires index < |l|
    ensures multiset(l[..index] + l[index + 1..]) + multiset{l[index]} == multiset(l)
  {
    assert l == l[..index] + [l[index]] + l[index + 1..];
  }

  /** The records after the deleted one move up by one place; those before it stay where they were. */
  lemma DeleteShifts(l: seq<Expense>, index: int, j: int)
    requires 0 <= index < |l| && 0 <= j < |l| - 1
    ensures Delete(l, index)[j] == if j < index then l[j] else l[j + 1]
  {
  }

  // ---------------------------------------------------------------------------
  // The merge after reading the inbox.

  /** The records one message gives: its transaction, or none. */
  function Parsed(body: string, date: string): (r: seq<Expense>)
    ensures r == [] <==> ParseSms(body, date).None?
    ensures r != [] ==> r == [ParseSms(body, date).value]
  {
    match ParseSms(body, date)
    case None => []
    case Some(e) => [e]
  }

  /** `map(parse).filter(t => t !== null)`: the records the messages give, in message order. */
  function NewTransactions(bodies: seq<string>, date: string): (r: seq<Expense>)
    ensures |r| <= |bodies|
    ensures forall i :: 0 <= i < |r| ==> r[i].description == SmsDescription && r[i].date == date && WellSigned(r[i])
    decreases |bodies|
  {
    if bodies == [] then []
    else
      NewTransactions(bodies[..|bodies| - 1], date) + Parsed(bodies[|bodies| - 1], date)
  }

  /** Every imported record is what some message parses to. */
  lemma {:induction false} NewTransactionsFromMessages(bodies: seq<string>, date: string, e: Expense)
    requires e in NewTransactions(bodies, date)
    ensures exists b :: b in bodies && ParseSms(b, date) == Some(e)
    decreases |bodies|
  {
    var bs := bodies[..|bodies| - 1];
    var b := bodies[|bodies| - 1];
    if e in NewTransactions(bs, date) {
      NewTransactionsFromMessages(bs, date, e);
      var c :| c in bs && ParseSms(c, date) == Some(e);
      assert c in bodies;
    } else {
      assert ParseSms(b, date) == Some(e);
    }
  }

  /** The last message's records come after those of the messages before it. */
  lemma NewTransactionsLast(bodies: seq<string>, date: string)
    requires bodies != []
    ensures NewTransactions(bodies, date)
      == NewTransactions(bodies[..|bodies| - 1], date) + Parsed(bodies[|bodies| - 1], date)
  {
  }

  /** The records of two batches, one after the other, are those of the joined batch. */
  lemma {:induction false} NewTransactionsConcat(a: seq<string>, b: seq<string>, date: string)
    ensures NewTransactions(a + b, date) == NewTransactions(a, date) + NewTransactions(b, date)
    decreases |b|
  {
    if b == [] {
      assert a + b == a;
    } else {
      var b' := b[..|b| - 1];
      assert (a + b)[..|a + b| - 1] == a + b';
      assert (a + b)[|a + b| - 1] == b[|b| - 1];
      NewTransactionsLast(a + b, date);
      NewTransactionsLast(b, date);
      NewTransactionsConcat(a, b', date);
    }
  }

  /** A batch where no message parses gives no records. */
  lemma {:induction false} NothingParsesNothingNew(bodies: seq<string>, date: string)
    requires forall i :: 0 <= i < |bodies| ==> ParseSms(bodies[i], date) == None
    ensures NewTransactions(bodies, date) == []
    decreases |bodies|
  {
    if bodies != [] {
      NothingParsesNothingNew(bodies[..|bodies| - 1], date);
    }
  }

  /** The merge step: the old ledger followed by the new records, set only when there are some. */
  function ImportSms(l: seq<Expense>, bodies: seq<string>, date: string): (r: seq<Expense>)
    ensures r == l + NewTransactions(bodies, date)
  {
    var nt := NewTransactions(bodies, date);
    if |nt| > 0 then l + nt else l
  }

  /** The ledger keeps its records, in place and in order, ahead of the imported ones. */
  lemma ImportKeepsLedger(l: seq<Expense>, bodies: seq<string>, date: string)
    ensures |ImportSms(l, bodies, date)| >= |l|
    ensures ImportSms(l, bodies, date)[..|l|] == l
  {
  }

  /** A batch where no message parses leaves the ledger unchanged. */
  lemma ImportNothingParses(l: seq<Expense>, bodies: seq<string>, date: string)
    requires forall i :: 0 <= i < |bodies| ==> ParseSms(bodies[i], date) == None
    ensures ImportSms(l, bodies, date) == l
  {
    NothingParsesNothingNew(bodies, date);
  }

  /** There is no deduplication: importing the same batch twice adds its records twice. */
  lemma ImportTwice(l: seq<Expense>, bodies: seq<string>, date: string)
    ensures var nt := NewTransactions(bodies, date);
      ImportSms(ImportSms(l, bodies, date), bodies, date) == l + nt + nt
    ensures |ImportSms(ImportSms(l, bodies, date), bodies, date)| == |l| + 2 * |NewTransactions(bodies, date)|
  {
  }

  /** After an import the balance has moved by exactly the amounts imported. */
  lemma ImportTotals(l: seq<Expense>, bodies: seq<string>, date: string)
    ensures TotalBalance(ImportSms(l, bodies, date)) == TotalBalance(l) + SumAmounts(NewTransactions(bodies, date))
  {
    var nt := NewTransactions(bodies, date);
    TotalsOfConcat(l, nt);
    BalanceIsSumOfAll(nt);
  }
}
