/**
 * 32-bit signed integers and the text they are read from.
 *
 * `ParseI32` models `str::parse::<i32>` as the lexer uses it: an optional
 * single `+` or `-`, then one or more ASCII digits, with the accumulated
 * value checked against the i32 range after every digit. `Show` is the
 * decimal rendering of an i32 and serves as its inverse.
 */
module Integers {
  import opened Wrappers

  const MIN_I32: int := -0x8000_0000
  const MAX_I32: int := 0x7fff_ffff

  newtype i32 = x: int | -0x8000_0000 <= x < 0x8000_0000

  predicate InI32(x: int) {
    MIN_I32 <= x <= MAX_I32
  }

  predicate IsDigit(c: char) {
    '0' <= c <= '9'
  }

  function DigitValue(c: char): (d: nat)
    requires IsDigit(c)
    ensures d < 10
  {
    (c as int) - ('0' as int)
  }

  predicate AllDigits(s: string) {
    forall i :: 0 <= i < |s| ==> IsDigit(s[i])
  }

  /** The value of a run of decimal digits, most significant digit first. */
  function DecimalValue(ds: string): nat
    requires AllDigits(ds)
    decreases |ds|
  {
    if ds == [] then 0 else DecimalValue(ds[..|ds| - 1]) * 10 + DigitValue(ds[|ds| - 1])
  }

  predicate IsSign(c: char) {
    c == '+' || c == '-'
  }

  /** The text after an optional leading sign. */
  function Unsigned(s: string): string {
    if |s| > 0 && IsSign(s[0]) then s[1..] else s
  }

  /** Text of the integer form: an optional sign followed by at least one digit. */
  predicate IsIntegerText(s: string) {
    |Unsigned(s)| > 0 && AllDigits(Unsigned(s))
  }

  /** The mathematical value that integer text denotes. */
  function TextValue(s: string): int
    requires IsIntegerText(s)
  {
    if s[0] == '-' then 0 - DecimalValue(Unsigned(s)) else DecimalValue(Unsigned(s))
  }

  function Signed(positive: bool, m: nat): int {
    if positive then m else 0 - m
  }

  /**
   * The digit loop of Rust's integer parser: from index `k` on, each digit is
   * checked, then the accumulator is multiplied by 10 and the digit added
   * (or, for a negative number, subtracted), failing as soon as the
   * accumulator leaves the i32 range. The multiplication and the addition are
   * checked separately in Rust; since both move the accumulator away from
   * zero, checking their combined result fails on exactly the same inputs.
   */
  function Accumulate(ds: string, k: nat, acc: i32, positive: bool): Option<i32>
    requires k <= |ds|
    decreases |ds| - k
  {
    if k == |ds| then Some(acc)
    else if !IsDigit(ds[k]) then None
    else
      var next := if positive then acc as int * 10 + DigitValue(ds[k])
                  else acc as int * 10 - DigitValue(ds[k]);
      if InI32(next) then Accumulate(ds, k + 1, next as i32, positive) else None
  }

  /** `str::parse::<i32>`: `None` stands for any `ParseIntError`. */
  function ParseI32(s: string): Option<i32> {
    if s == [] then None
    else if IsSign(s[0]) && |s| == 1 then None
    else if s[0] == '+' then Accumulate(s[1..], 0, 0, true)
    else if s[0] == '-' then Accumulate(s[1..], 0, 0, false)
    else Accumulate(s, 0, 0, true)
  }

  /** A longer digit prefix never has a smaller value. */
  lemma {:induction false} DecimalPrefixMonotone(ds: string, j: nat)
    requires AllDigits(ds) && j <= |ds|
    ensures AllDigits(ds[..j]) && DecimalValue(ds[..j]) <= DecimalValue(ds)
    decreases |ds|
  {
    assert AllDigits(ds[..j]) by {
      forall i | 0 <= i < j ensures IsDigit(ds[..j][i]) { assert ds[..j][i] == ds[i]; }
    }
    if j < |ds| {
      var p := ds[..|ds| - 1];
      assert AllDigits(p) by {
        forall i | 0 <= i < |p| ensures IsDigit(p[i]) { assert p[i] == ds[i]; }
      }
      DecimalPrefixMonotone(p, j);
      assert p[..j] == ds[..j];
    } else {
      assert ds[..j] == ds;
    }
  }

  /** The digit loop succeeds exactly when all digits are digits and the value fits. */
  lemma {:induction false} AccumulateCorrect(ds: string, k: nat, acc: i32, positive: bool)
    requires k <= |ds| && AllDigits(ds[..k])
    requires acc as int == Signed(positive, DecimalValue(ds[..k]))
    ensures Accumulate(ds, k, acc, positive).Some? <==>
              AllDigits(ds) && InI32(Signed(positive, DecimalValue(ds)))
    ensures Accumulate(ds, k, acc, positive).Some? ==>
              AllDigits(ds) && Accumulate(ds, k, acc, positive).value as int == Signed(positive, DecimalValue(ds))
    decreases |ds| - k
  {
    if k == |ds| {
      assert ds[..k] == ds;
    } else if !IsDigit(ds[k]) {
      assert !AllDigits(ds);
    } else {
      var q := ds[..k + 1];
      assert AllDigits(q) by {
        forall i | 0 <= i < |q| ensures IsDigit(q[i]) {
          if i < k { assert q[i] == ds[..k][i]; }
        }
      }
      assert q[..|q| - 1] == ds[..k];
      assert DecimalValue(q) == DecimalValue(ds[..k]) * 10 + DigitValue(ds[k]);
      var next := if positive then acc as int * 10 + DigitValue(ds[k])
                  else acc as int * 10 - DigitValue(ds[k]);
      assert next == Signed(positive, DecimalValue(q));
      if InI32(next) {
        AccumulateCorrect(ds, k + 1, next as i32, positive);
      } else if AllDigits(ds) {
        DecimalPrefixMonotone(ds, k + 1);
      }
    }
  }

  /** `ParseI32` accepts exactly the integer text whose value is an i32, and yields that value. */
  lemma ParseI32Correct(s: string)
    ensures ParseI32(s).Some? <==> IsIntegerText(s) && InI32(TextValue(s))
    ensures ParseI32(s).Some? ==> ParseI32(s).value as int == TextValue(s)
  {
    assert AllDigits(s[..0]);
    if s == [] {
    } else if IsSign(s[0]) && |s| == 1 {
    } else if IsSign(s[0]) {
      var ds := s[1..];
      assert ds[..0] == [];
      AccumulateCorrect(ds, 0, 0, s[0] == '+');
    } else {
      assert s[..0] == [];
      AccumulateCorrect(s, 0, 0, true);
    }
  }

  function DigitChar(d: nat): (c: char)
    requires d < 10
    ensures IsDigit(c) && DigitValue(c) == d
  {
    ('0' as int + d) as char
  }

  /** Decimal digits of a natural number, without leading zeros. */
  function DecimalText(m: nat): (s: string)
    decreases m
  {
    if m < 10 then [DigitChar(m)] else DecimalText(m / 10) + [DigitChar(m % 10)]
  }

  /** The decimal rendering of an i32, as Rust's `Display` writes it. */
  function Show(n: i32): string {
    if n < 0 then "-" + DecimalText(-(n as int)) else DecimalText(n as int)
  }

  lemma {:induction false} DecimalTextValue(m: nat)
    ensures |DecimalText(m)| > 0 && AllDigits(DecimalText(m))
    ensures DecimalValue(DecimalText(m)) == m
    decreases m
  {
    var s := DecimalText(m);
    if m >= 10 {
      DecimalTextValue(m / 10);
      var p := DecimalText(m / 10);
      assert s == p + [DigitChar(m % 10)];
      assert AllDigits(s) by {
        forall i | 0 <= i < |s| ensures IsDigit(s[i]) {
          if i < |p| { assert s[i] == p[i]; }
        }
      }
      assert s[..|s| - 1] == p;
    }
  }

  /** Parsing the rendering of any i32 gives it back. */
  lemma ParseShow(n: i32)
    ensures ParseI32(Show(n)) == Some(n)
  {
    var s := Show(n);
    if n < 0 {
      DecimalTextValue(-(n as int));
      assert Unsigned(s) == DecimalText(-(n as int));
    } else {
      DecimalTextValue(n as int);
      assert IsDigit(s[0]);
    }
    ParseI32Correct(s);
  }
}
