/**
 * formatAmount of the home screen: the absolute value of an amount, printed
 * with a comma between every three digits of its whole part.
 */
module AmountFormat {
  import opened Text

  /**
   * The replace of `/\B(?=(\d{3})+(?!\d))/g` by "," on a run of digits, read
   * position by position from k: a comma goes before position p when p is not
   * at either end of the run (`\B` between two digits) and the digits from p to
   * the end of the run are a positive multiple of three (the look-ahead).
   */
  function InsertSeparators(d: string, k: nat): (r: string)
    requires k <= |d|
    ensures |r| >= |d| - k
    ensures AllDigits(d) ==> forall i :: 0 <= i < |r| ==> r[i] == ',' || IsDigit(r[i])
    decreases |d| - k
  {
    if k == |d| then []
    else (if 0 < k && (|d| - k) % 3 == 0 then [','] else []) + [d[k]] + InsertSeparators(d, k + 1)
  }

  /** Digits in the leading group when n digits are grouped in threes from the right. */
  function LeadLength(n: nat): (h: nat)
    ensures n == 0 ==> h == 0
    ensures n > 0 ==> 1 <= h <= 3 && h <= n && (n - h) % 3 == 0
  {
    if n == 0 then 0 else (n - 1) % 3 + 1
  }

  /** ",ddd" for each successive three digits of u. */
  function Chunked(u: string): string
    requires |u| % 3 == 0
    decreases |u|
  {
    if u == [] then [] else [','] + u[..3] + Chunked(u[3..])
  }

  /** Reference form of the grouping: the leading one to three digits, then ",ddd" groups. */
  function Grouped(d: string): string {
    var h := LeadLength(|d|);
    d[..h] + Chunked(d[h..])
  }

  /**
   * How Number.prototype.toString prints the hundredths of an exact amount:
   * nothing for a whole amount, otherwise a point and the fraction digits
   * without trailing zeros (".5", ".05", ".25").
   */
  function FractionText(f: nat): (t: string)
    requires f < 100
    ensures f == 0 ==> t == []
    ensures f != 0 ==> |t| >= 2 && t[0] == '.' && AllDigits(t[1..])
  {
    if f == 0 then []
    else if f % 10 == 0 then ['.', DigitChar(f / 10)]
    else ['.', DigitChar(f / 10), DigitChar(f % 10)]
  }

  /**
   * formatAmount for an amount in hundredths: Math.abs, toString, then the
   * separator rule on the whole part. The rule never fires inside the at most
   * two fraction digits or next to the point, which are word boundaries.
   * The text carries no sign: it starts with a digit and holds only digits,
   * commas and a point.
   */
  function FormatAmount(amount: int): (r: string)
    ensures r != [] && IsDigit(r[0])
    ensures forall i :: 0 <= i < |r| ==> r[i] == ',' || r[i] == '.' || IsDigit(r[i])
  {
    var magnitude := if amount < 0 then -amount else amount;
    InsertSeparators(NatToDigits(magnitude / 100), 0) + FractionText(magnitude % 100)
  }

  // ---------------------------------------------------------------------------
  // The separator rule agrees with the reference grouping.

  /** One position where the rule inserts nothing. */
  lemma PlainStep(d: string, k: nat)
    requires k < |d| && !(0 < k && (|d| - k) % 3 == 0)
    ensures InsertSeparators(d, k) == [d[k]] + InsertSeparators(d, k + 1)
  {
  }

  /** One position where the rule inserts a comma. */
  lemma CommaStep(d: string, k: nat)
    requires k < |d| && 0 < k && (|d| - k) % 3 == 0
    ensures InsertSeparators(d, k) == [',', d[k]] + InsertSeparators(d, k + 1)
  {
  }

  /** Inside the leading group no position is a multiple of three from the end. */
  lemma LeadNotBoundary(n: nat, k: nat)
    requires 0 < k < LeadLength(n)
    ensures (n - k) % 3 != 0
  {
  }

  /** Regrouping of one leading digit. */
  lemma LeadShape(d: string, k: nat, h: nat, rest: string)
    requires k < h <= |d|
    ensures [d[k]] + (d[k + 1..h] + rest) == d[k..h] + rest
  {
    assert d[k..h] == [d[k]] + d[k + 1..h];
  }

  /** Inside the leading group the rule inserts nothing. */
  lemma {:induction false} SeparatorsInLead(d: string, k: nat)
    requires k <= LeadLength(|d|)
    ensures InsertSeparators(d, k) == d[k..LeadLength(|d|)] + InsertSeparators(d, LeadLength(|d|))
    decreases LeadLength(|d|) - k
  {
    var h := LeadLength(|d|);
    if k < h {
      if 0 < k {
        LeadNotBoundary(|d|, k);
      }
      PlainStep(d, k);
      SeparatorsInLead(d, k + 1);
      LeadShape(d, k, h, InsertSeparators(d, h));
    }
  }

  /** The two positions after a group boundary are not boundaries. */
  lemma ChunkInterior(n: nat, j: nat)
    requires 0 < j < n && (n - j) % 3 == 0
    ensures j + 3 <= n && (n - (j + 1)) % 3 != 0 && (n - (j + 2)) % 3 != 0 && (n - (j + 3)) % 3 == 0
  {
  }

  /** The first group of the digits from j, and what follows it. */
  lemma NextGroup(d: string, j: nat)
    requires j + 3 <= |d|
    ensures d[j..][..3] == [d[j], d[j + 1], d[j + 2]] && d[j..][3..] == d[j + 3..]
  {
  }

  /** Regrouping of one ",ddd" group. */
  lemma GroupShape(a: char, b: char, c: char, rest: string)
    ensures [',', a] + ([b] + ([c] + rest)) == [','] + [a, b, c] + rest
  {
  }

  /** From a group boundary on, the rule produces the ",ddd" groups. */
  lemma {:induction false} SeparatorsInChunks(d: string, j: nat)
    requires 0 < j <= |d| && (|d| - j) % 3 == 0
    ensures InsertSeparators(d, j) == Chunked(d[j..])
    decreases |d| - j
  {
    if j < |d| {
      ChunkInterior(|d|, j);
      CommaStep(d, j);
      PlainStep(d, j + 1);
      PlainStep(d, j + 2);
      SeparatorsInChunks(d, j + 3);
      NextGroup(d, j);
      GroupShape(d[j], d[j + 1], d[j + 2], InsertSeparators(d, j + 3));
    }
  }

  /** The separator rule of formatAmount is exactly the leading-group-then-threes grouping. */
  lemma SeparatorsAreGrouping(d: string)
    ensures InsertSeparators(d, 0) == Grouped(d)
  {
    var h := LeadLength(|d|);
    if d != [] {
      SeparatorsInLead(d, 0);
      SeparatorsInChunks(d, h);
    }
  }

  // ---------------------------------------------------------------------------
  // Properties of the grouping.

  lemma {:induction false} ChunkedCommas(u: string)
    requires |u| % 3 == 0 && AllDigits(u)
    ensures RemoveCommas(Chunked(u)) == u
    decreases |u|
  {
    if u != [] {
      assert Chunked(u) == [','] + (u[..3] + Chunked(u[3..]));
      RemoveCommasConcat([','], u[..3] + Chunked(u[3..]));
      RemoveCommasConcat(u[..3], Chunked(u[3..]));
      assert ',' !in u[..3] by {
        forall i | 0 <= i < 3 ensures u[..3][i] != ',' { assert IsDigit(u[i]); }
      }
      RemoveCommasKeepsPlain(u[..3]);
      ChunkedCommas(u[3..]);
      assert u == u[..3] + u[3..];
    }
  }

  /** Removing the separators gives back the digits. */
  lemma GroupedRemoveCommas(d: string)
    requires AllDigits(d)
    ensures RemoveCommas(Grouped(d)) == d
  {
    var h := LeadLength(|d|);
    RemoveCommasConcat(d[..h], Chunked(d[h..]));
    assert ',' !in d[..h] by {
      forall i | 0 <= i < h ensures d[..h][i] != ',' { assert IsDigit(d[i]); }
    }
    RemoveCommasKeepsPlain(d[..h]);
    ChunkedCommas(d[h..]);
    assert d == d[..h] + d[h..];
  }

  /** t split at every comma: the pieces between commas, in order. */
  function SplitAtCommas(t: string): (g: seq<string>)
    ensures |g| >= 1
    decreases |t|
  {
    if t == [] then [[]]
    else
      var rest := SplitAtCommas(t[1..]);
      if t[0] == ',' then [[]] + rest else [[t[0]] + rest[0]] + rest[1..]
  }

  /** Display grouping: groups of digits between single commas, the first of one to three digits, every later one of exactly three. */
  ghost predicate WellGrouped(t: string) {
    var g := SplitAtCommas(t);
    && 1 <= |g[0]| <= 3
    && (forall i :: 1 <= i < |g| ==> |g[i]| == 3)
    && (forall i :: 0 <= i < |g| ==> AllDigits(g[i]))
  }

  /** Splitting a comma-free prefix glued to t: the prefix joins t's first piece. */
  lemma {:induction false} SplitAfterPlain(a: string, t: string)
    requires ',' !in a
    ensures SplitAtCommas(a + t) == [a + SplitAtCommas(t)[0]] + SplitAtCommas(t)[1..]
    decreases |a|
  {
    if a == [] {
      var g := SplitAtCommas(t);
      assert a + t == t && a + g[0] == g[0];
      assert g == [g[0]] + g[1..];
    } else {
      assert (a + t)[0] == a[0] && (a + t)[1..] == a[1..] + t;
      SplitAfterPlain(a[1..], t);
      var rest := SplitAtCommas(a[1..] + t);
      assert rest[0] == a[1..] + SplitAtCommas(t)[0];
      assert rest[1..] == SplitAtCommas(t)[1..];
      assert SplitAtCommas(a + t) == [[a[0]] + rest[0]] + rest[1..];
      calc {
        [a[0]] + rest[0];
        [a[0]] + (a[1..] + SplitAtCommas(t)[0]);
        ([a[0]] + a[1..]) + SplitAtCommas(t)[0];
        { assert [a[0]] + a[1..] == a; }
        a + SplitAtCommas(t)[0];
      }
    }
  }

  lemma {:induction false} SplitChunked(u: string)
    requires |u| % 3 == 0 && AllDigits(u)
    ensures var g := SplitAtCommas(Chunked(u));
      && g[0] == []
      && (forall i :: 1 <= i < |g| ==> |g[i]| == 3 && AllDigits(g[i]))
    decreases |u|
  {
    if u != [] {
      var c := Chunked(u);
      var tail := u[..3] + Chunked(u[3..]);
      assert c == [','] + tail;
      assert c[0] == ',' && c[1..] == tail;
      assert ',' !in u[..3] by {
        forall i | 0 <= i < 3 ensures u[..3][i] != ',' { assert IsDigit(u[i]); }
      }
      SplitAfterPlain(u[..3], Chunked(u[3..]));
      SplitChunked(u[3..]);
      var g' := SplitAtCommas(Chunked(u[3..]));
      assert u[..3] + g'[0] == u[..3];
      assert SplitAtCommas(tail) == [u[..3]] + g'[1..];
      assert SplitAtCommas(c) == [[]] + SplitAtCommas(tail);
    }
  }

  /** The grouping of a non-empty run of digits has the display shape. */
  lemma GroupedWellGrouped(d: string)
    requires 1 <= |d| && AllDigits(d)
    ensures WellGrouped(Grouped(d))
  {
    var h := LeadLength(|d|);
    SplitAfterPlain(d[..h], Chunked(d[h..])) by {
      assert ',' !in d[..h] by {
        forall i | 0 <= i < h ensures d[..h][i] != ',' { assert IsDigit(d[i]); }
      }
    }
    SplitChunked(d[h..]);
  }

  /** The grouping of a non-empty run of digits starts and ends with a digit. */
  lemma GroupedEnds(d: string)
    requires 1 <= |d| && AllDigits(d)
    ensures var t := Grouped(d); |t| >= 1 && IsDigit(t[0]) && IsDigit(t[|t| - 1])
  {
    var h := LeadLength(|d|);
    var t := Grouped(d);
    assert t[0] == d[0];
    if |d| > 3 {
      ChunkedLast(d[h..]);
    }
  }

  lemma {:induction false} ChunkedLast(u: string)
    requires |u| % 3 == 0 && |u| >= 3 && AllDigits(u)
    ensures var c := Chunked(u); |c| >= 1 && c[|c| - 1] == u[|u| - 1]
    decreases |u|
  {
    if |u| > 3 {
      ChunkedLast(u[3..]);
    }
  }

  // ---------------------------------------------------------------------------
  // Properties of formatAmount.

  /** formatAmount ignores the sign: an amount and its negation print the same. */
  lemma FormatAmountIgnoresSign(amount: int)
    ensures FormatAmount(-amount) == FormatAmount(amount)
  {
  }

  /**
   * On a whole amount formatAmount prints the grouped digits: they have the
   * display shape, start and end with a digit, and give back the decimal
   * digits of the amount when the commas are removed.
   */
  lemma FormatWholeAmount(amount: int)
    requires amount % 100 == 0
    ensures var t := FormatAmount(amount);
      && WellGrouped(t)
      && RemoveCommas(t) == NatToDigits((if amount < 0 then -amount else amount) / 100)
      && IsDigit(t[0]) && IsDigit(t[|t| - 1])
  {
    var m := if amount < 0 then -amount else amount;
    assert m % 100 == 0;
    var d := NatToDigits(m / 100);
    SeparatorsAreGrouping(d);
    assert FormatAmount(amount) == Grouped(d);
    GroupedWellGrouped(d);
    GroupedRemoveCommas(d);
    GroupedEnds(d);
  }

  lemma DigitsOf1234567()
    ensures NatToDigits(1234567) == "1234567"
  {
    assert NatToDigits(12) == "12";
    assert NatToDigits(123) == "123";
    assert NatToDigits(1234) == "1234";
    assert NatToDigits(12345) == "12345";
    assert NatToDigits(123456) == "123456";
  }

  /** Worked example: formatAmount of 1234567 rupees prints "1,234,567". */
  lemma FormatAmountExample()
    ensures FormatAmount(123456700) == "1,234,567"
  {
    var n := 123456700;
    assert n / 100 == 1234567 && n % 100 == 0;
    assert FractionText(0) == [];
    DigitsOf1234567();
    SeparatorsAreGrouping("1234567");
    GroupedOf1234567();
    assert FormatAmount(n) == InsertSeparators("1234567", 0) + [];
  }

  /** The grouping of seven digits: one lead digit, then two groups of three. */
  lemma GroupedOf1234567()
    ensures Grouped("1234567") == "1,234,567"
  {
    var d := "1234567";
    assert d[..1] == "1" && d[1..] == "234567";
    ChunkedOf234567();
  }

  /** Two groups of three digits. */
  lemma ChunkedOf234567()
    ensures Chunked("234567") == ",234,567"
  {
    var u, v := "234567", "567";
    assert u[..3] == "234" && u[3..] == v;
    assert v[..3] == v && v[3..] == [];
    assert Chunked(v) == ",567";
  }

  /** Worked example: formatAmount of -42 rupees prints "42"; the sign is dropped. */
  lemma FormatNegativeExample()
    ensures FormatAmount(-4200) == "42"
  {
    assert NatToDigits(42) == "42";
    SeparatorsAreGrouping("42");
  }
}
