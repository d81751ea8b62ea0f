/**
 * Character classes and decimal-digit strings, as the regular expressions and
 * number conversions of the ledger screens see them.
 */
module Text {

  /** The characters `\d` matches in a JavaScript regular expression. */
  predicate IsDigit(c: char) {
    '0' <= c <= '9'
  }

  function DigitValue(c: char): (v: nat)
    requires IsDigit(c)
    ensures v <= 9
  {
    c as int - '0' as int
  }

  function DigitChar(v: nat): (c: char)
    requires v <= 9
    ensures IsDigit(c) && DigitValue(c) == v
  {
    ('0' as int + v) as char
  }

  predicate AllDigits(s: string) {
    forall i :: 0 <= i < |s| ==> IsDigit(s[i])
  }

  /** The number a string of decimal digits denotes, most significant digit first. */
  function Value(s: string): nat
    requires AllDigits(s)
    decreases |s|
  {
    if s == [] then 0 else Value(s[..|s| - 1]) * 10 + DigitValue(s[|s| - 1])
  }

  /** The decimal digits of n without leading zeros: what Number.prototype.toString prints for a whole number. */
  function NatToDigits(n: nat): (s: string)
    ensures 1 <= |s| && AllDigits(s)
    decreases n
  {
    if n < 10 then [DigitChar(n)] else NatToDigits(n / 10) + [DigitChar(n % 10)]
  }

  /** Reading back the printed digits gives the number. */
  lemma {:induction false} NatToDigitsValue(n: nat)
    ensures Value(NatToDigits(n)) == n
  {
    if n >= 10 {
      var s := NatToDigits(n);
      assert s[..|s| - 1] == NatToDigits(n / 10);
      NatToDigitsValue(n / 10);
    }
  }

  /** One past the end of the run of digits that starts at i (a greedy `\d*`). */
  function DigitRunEnd(s: string, i: nat): (e: nat)
    requires i <= |s|
    ensures i <= e <= |s| && forall k :: i <= k < e ==> IsDigit(s[k])
    ensures e == |s| || !IsDigit(s[e])
    decreases |s| - i
  {
    if i < |s| && IsDigit(s[i]) then DigitRunEnd(s, i + 1) else i
  }

  /** The digit run from i ends at the first character that is not a digit. */
  lemma {:induction false} DigitRunEndAt(s: string, i: nat, e: nat)
    requires i <= e <= |s| && (e == |s| || !IsDigit(s[e]))
    requires forall k :: i <= k < e ==> IsDigit(s[k])
    ensures DigitRunEnd(s, i) == e
    decreases e - i
  {
    if i < e {
      DigitRunEndAt(s, i + 1, e);
    }
  }

  /**
   * The characters `\s` matches in a JavaScript regular expression: WhiteSpace
   * and LineTerminator of ECMA-262, the same set String.prototype.trim and
   * parseFloat skip.
   */
  predicate IsSpace(c: char) {
    var k := c as int;
    k == 0x09 || k == 0x0A || k == 0x0B || k == 0x0C || k == 0x0D || k == 0x20
    || k == 0xA0 || k == 0x1680 || (0x2000 <= k <= 0x200A)
    || k == 0x2028 || k == 0x2029 || k == 0x202F || k == 0x205F || k == 0x3000 || k == 0xFEFF
  }

  /** One past the end of the run of white space that starts at i (a greedy `\s*`). */
  function SpaceRunEnd(s: string, i: nat): (e: nat)
    requires i <= |s|
    ensures i <= e <= |s|
    ensures forall k :: i <= k < e ==> IsSpace(s[k])
    ensures e == |s| || !IsSpace(s[e])
    decreases |s| - i
  {
    if i < |s| && IsSpace(s[i]) then SpaceRunEnd(s, i + 1) else i
  }

  /** The white-space run from i ends at the first character that is not white space. */
  lemma {:induction false} SpaceRunEndAt(s: string, i: nat, q: nat)
    requires i <= q < |s| && !IsSpace(s[q])
    requires forall k :: i <= k < q ==> IsSpace(s[k])
    ensures SpaceRunEnd(s, i) == q
    decreases q - i
  {
    if i < q {
      SpaceRunEndAt(s, i + 1, q);
    }
  }

  /** White space from i up to a digit at q ends at that digit. */
  lemma SpaceRunToDigit(s: string, i: nat, q: nat)
    requires i <= q < |s| && IsDigit(s[q])
    requires forall k :: i <= k < q ==> IsSpace(s[k])
    ensures SpaceRunEnd(s, i) == q
  {
    assert !IsSpace(s[q]);
    SpaceRunEndAt(s, i, q);
  }

  /** A run of digits d found at p, followed by a non-digit or by the end, is where the digit run from p ends. */
  lemma DigitRunOf(t: string, p: nat, d: string)
    requires AllDigits(d)
    requires p + |d| <= |t| && t[p..p + |d|] == d
    requires p + |d| == |t| || !IsDigit(t[p + |d|])
    ensures DigitRunEnd(t, p) == p + |d|
  {
    forall k | p <= k < p + |d| ensures IsDigit(t[k]) { assert t[k] == t[p..p + |d|][k - p]; }
    DigitRunEndAt(t, p, p + |d|);
  }

  /** The value of two digits. */
  lemma ValueOfTwo(x: string)
    requires |x| == 2 && AllDigits(x)
    ensures Value(x) == DigitValue(x[0]) * 10 + DigitValue(x[1])
  {
    var y := x[..1];
    assert y[..0] == [] && y[0] == x[0];
    assert Value(y) == DigitValue(x[0]);
    assert x[..|x| - 1] == y;
  }

  /** `s.replace(/,/g, '')`: every comma removed, everything else kept in order. */
  function RemoveCommas(s: string): (r: string)
    ensures |r| <= |s|
    decreases |s|
  {
    if s == [] then []
    else (if s[0] == ',' then [] else [s[0]]) + RemoveCommas(s[1..])
  }

  /** No comma survives. */
  lemma {:induction false} RemoveCommasDropsAll(s: string)
    ensures ',' !in RemoveCommas(s)
    decreases |s|
  {
    if s != [] {
      RemoveCommasDropsAll(s[1..]);
    }
  }

  /** A text without commas is left as it is. */
  lemma {:induction false} RemoveCommasKeepsPlain(s: string)
    requires ',' !in s
    ensures RemoveCommas(s) == s
    decreases |s|
  {
    if s != [] {
      assert s[1..] == s[1..] && ',' !in s[1..] by {
        forall i | 0 <= i < |s| - 1 ensures s[1..][i] != ',' { assert s[1..][i] == s[i + 1]; }
      }
      RemoveCommasKeepsPlain(s[1..]);
      assert s == [s[0]] + s[1..];
    }
  }

  lemma {:induction false} RemoveCommasConcat(a: string, b: string)
    ensures RemoveCommas(a + b) == RemoveCommas(a) + RemoveCommas(b)
    decreases |a|
  {
    if a == [] {
      assert a + b == b;
    } else {
      var head := if a[0] == ',' then [] else [a[0]];
      assert (a + b)[0] == a[0] && (a + b)[1..] == a[1..] + b;
      assert RemoveCommas(a + b) == head + RemoveCommas(a[1..] + b);
      RemoveCommasConcat(a[1..], b);
      assert RemoveCommas(a) == head + RemoveCommas(a[1..]);
    }
  }
}
