/**
  `str::parse::<usize>()` as the Rust core library implements it (radix 10,
  unsigned target), next to an independent description of the language it
  accepts: an optional `+`, then one or more ASCII digits whose value fits in
  a `usize`.
 */
module ParseInt {
  import opened Wrappers
  import opened Native

  /** The kinds of `ParseIntError` an unsigned parse can report. */
  datatype IntErrorKind = Empty | InvalidDigit | PosOverflow

  /** What `ParseIntError`'s `Display` prints for each kind. */
  function Message(k: IntErrorKind): string
  {
    match k
    case Empty => "cannot parse integer from empty string"
    case InvalidDigit => "invalid digit found in string"
    case PosOverflow => "number too large to fit in target type"
  }

  predicate IsDigit(c: char)
  {
    '0' <= c <= '9'
  }

  function DigitValue(c: char): (d: nat)
    requires IsDigit(c)
    ensures d < 10
  {
    (c as int) - ('0' as int)
  }

  predicate AllDigits(s: string)
  {
    forall i :: 0 <= i < |s| ==> IsDigit(s[i])
  }

  function Pow10(n: nat): (p: nat)
    ensures p >= 1
  {
    if n == 0 then 1 else 10 * Pow10(n - 1)
  }

  /** The value of a string of decimal digits, most significant digit first. */
  function DecimalValue(ds: string): nat
    requires AllDigits(ds)
  {
    if ds == [] then 0 else DigitValue(ds[0]) * Pow10(|ds| - 1) + DecimalValue(ds[1..])
  }

  /** One or more decimal digits whose value fits in a `usize`. */
  predicate DecimalLiteral(ds: string)
  {
    |ds| > 0 && AllDigits(ds) && DecimalValue(ds) <= USIZE_MAX
  }

  /** The strings a `usize` parse accepts: a decimal literal, optionally after one `+`. */
  predicate IsUsizeLiteral(s: string)
  {
    DecimalLiteral(s) || (|s| > 0 && s[0] == '+' && DecimalLiteral(s[1..]))
  }

  /** The number an accepted string denotes. */
  function LiteralValue(s: string): (v: usize)
    requires IsUsizeLiteral(s)
  {
    if s[0] == '+' then DecimalValue(s[1..]) else DecimalValue(s)
  }

  /**
    The digit loop of the library parser: each character must be a digit, and
    `acc * 10 + d` is computed with `checked_mul` then `checked_add`; the first
    failure ends the parse.
   */
  function Accumulate(acc: usize, ds: string): Result<usize, IntErrorKind>
    decreases |ds|
  {
    if ds == [] then Ok(acc)
    else if !IsDigit(ds[0]) then Err(InvalidDigit)
    else if acc * 10 > USIZE_MAX then Err(PosOverflow)
    else if acc * 10 + DigitValue(ds[0]) > USIZE_MAX then Err(PosOverflow)
    else Accumulate(acc * 10 + DigitValue(ds[0]), ds[1..])
  }

  lemma Distribute(acc: nat, d: nat, p: nat)
    ensures acc * (10 * p) + d * p == (acc * 10 + d) * p
  {
  }

  lemma PowSplit(acc: nat, d: nat, ds: string)
    requires |ds| > 0 && AllDigits(ds) && d == DigitValue(ds[0])
    ensures acc * Pow10(|ds|) + DecimalValue(ds) == (acc * 10 + d) * Pow10(|ds| - 1) + DecimalValue(ds[1..])
  {
    var p := Pow10(|ds| - 1);
    assert Pow10(|ds|) == 10 * p;
    assert DecimalValue(ds) == d * p + DecimalValue(ds[1..]);
    Distribute(acc, d, p);
  }

  lemma AtLeastFactor(a: nat, p: nat)
    requires p >= 1
    ensures a * p >= a
  {
  }

  /**
    The digit loop succeeds exactly when every character is a digit and the
    whole number, with the accumulator in front, fits in a `usize`; it then
    yields that number. A failure on digits only is always an overflow.
   */
  lemma {:induction false} AccumulateMeaning(acc: usize, ds: string)
    ensures Accumulate(acc, ds).Ok? <==> AllDigits(ds) && acc * Pow10(|ds|) + DecimalValue(ds) <= USIZE_MAX
    ensures Accumulate(acc, ds).Ok? ==> Accumulate(acc, ds).value == acc * Pow10(|ds|) + DecimalValue(ds)
    ensures Accumulate(acc, ds).Err? && AllDigits(ds) ==> Accumulate(acc, ds).error == PosOverflow
    ensures Accumulate(acc, ds) != Err(Empty)
    decreases |ds|
  {
    if ds == [] {
    } else if !IsDigit(ds[0]) {
    } else {
      var d := DigitValue(ds[0]);
      var rest := ds[1..];
      assert AllDigits(ds) <==> AllDigits(rest) by {
        if AllDigits(rest) {
          forall i | 0 <= i < |ds| ensures IsDigit(ds[i]) {
            if i > 0 { assert ds[i] == rest[i - 1]; }
          }
        }
      }
      if AllDigits(ds) {
        PowSplit(acc, d, ds);
        AtLeastFactor(acc * 10 + d, Pow10(|rest|));
      }
      if acc * 10 > USIZE_MAX {
      } else if acc * 10 + d > USIZE_MAX {
      } else {
        AccumulateMeaning(acc * 10 + d, rest);
      }
    }
  }

  /**
    A non-digit ends the digit loop with `InvalidDigit` when the digits before
    it still fit in a `usize` (so no overflow was reported first).
   */
  lemma {:induction false} AccumulateInvalidDigit(acc: usize, ds: string, i: nat)
    requires i < |ds| && !IsDigit(ds[i]) && AllDigits(ds[..i])
    requires acc * Pow10(i) + DecimalValue(ds[..i]) <= USIZE_MAX
    ensures Accumulate(acc, ds) == Err(InvalidDigit)
    decreases i
  {
    if i > 0 {
      var pre := ds[..i];
      var d := DigitValue(ds[0]);
      assert pre[0] == ds[0];
      PowSplit(acc, d, pre);
      AtLeastFactor(acc * 10 + d, Pow10(i - 1));
      assert ds[1..][..i - 1] == pre[1..];
      assert AllDigits(pre[1..]) by {
        forall j | 0 <= j < i - 1 ensures IsDigit(pre[1..][j]) {
          assert pre[1..][j] == pre[j + 1];
        }
      }
      AccumulateInvalidDigit(acc * 10 + d, ds[1..], i - 1);
    }
  }

  /** Every position where the digit loop, started from zero, meets a non-digit in time. */
  lemma AccumulateInvalidDigitAnywhere(ds: string)
    ensures forall i :: 0 <= i < |ds| && !IsDigit(ds[i]) && AllDigits(ds[..i]) && DecimalValue(ds[..i]) <= USIZE_MAX ==>
                Accumulate(0, ds) == Err(InvalidDigit)
  {
    forall i | 0 <= i < |ds| && !IsDigit(ds[i]) && AllDigits(ds[..i]) && DecimalValue(ds[..i]) <= USIZE_MAX
      ensures Accumulate(0, ds) == Err(InvalidDigit)
    {
      AccumulateInvalidDigit(0, ds, i);
    }
  }

  /**
    Once the digits read so far, with the accumulator in front, exceed
    `usize::MAX`, the digit loop has failed with `PosOverflow`, whatever
    characters follow.
   */
  lemma {:induction false} AccumulateOverflow(acc: usize, ds: string, i: nat)
    requires 0 < i <= |ds| && AllDigits(ds[..i])
    requires acc * Pow10(i) + DecimalValue(ds[..i]) > USIZE_MAX
    ensures Accumulate(acc, ds) == Err(PosOverflow)
    decreases i
  {
    var pre := ds[..i];
    var d := DigitValue(ds[0]);
    assert pre[0] == ds[0];
    PowSplit(acc, d, pre);
    if i > 1 {
      if acc * 10 > USIZE_MAX {
      } else if acc * 10 + d > USIZE_MAX {
      } else {
        assert ds[1..][..i - 1] == pre[1..];
        assert AllDigits(pre[1..]) by {
          forall j | 0 <= j < i - 1 ensures IsDigit(pre[1..][j]) {
            assert pre[1..][j] == pre[j + 1];
          }
        }
        AccumulateOverflow(acc * 10 + d, ds[1..], i - 1);
      }
    }
  }

  /** Every prefix at which the digit loop, started from zero, overflows. */
  lemma AccumulateOverflowAnywhere(ds: string)
    ensures forall i :: 0 < i <= |ds| && AllDigits(ds[..i]) && DecimalValue(ds[..i]) > USIZE_MAX ==>
                Accumulate(0, ds) == Err(PosOverflow)
  {
    forall i | 0 < i <= |ds| && AllDigits(ds[..i]) && DecimalValue(ds[..i]) > USIZE_MAX
      ensures Accumulate(0, ds) == Err(PosOverflow)
    {
      AccumulateOverflow(0, ds, i);
    }
  }

  /** The text the digit loop runs over: `s` with one leading `+` removed. */
  function Unsigned(s: string): string
  {
    if |s| > 0 && s[0] == '+' then s[1..] else s
  }

  /**
    `s.parse::<usize>()`: the empty string is `Empty`; a lone sign is
    `InvalidDigit`; otherwise one leading `+` is skipped and the digit loop
    runs. A `-` is never a sign for an unsigned target.
   */
  function ParseUsize(s: string): (r: Result<usize, IntErrorKind>)
    ensures r.Ok? <==> IsUsizeLiteral(s)
    ensures r.Ok? ==> r.value == LiteralValue(s)
    ensures r == Err(Empty) <==> s == []
    ensures s == "+" || s == "-" ==> r == Err(InvalidDigit)
    ensures var ds := Unsigned(s);
      forall i :: 0 <= i < |ds| && !IsDigit(ds[i]) && AllDigits(ds[..i]) && DecimalValue(ds[..i]) <= USIZE_MAX ==>
                    r == Err(InvalidDigit)
    ensures var ds := Unsigned(s);
      forall i :: 0 < i <= |ds| && AllDigits(ds[..i]) && DecimalValue(ds[..i]) > USIZE_MAX ==>
                    r == Err(PosOverflow)
  {
    if s == [] then Err(Empty)
    else if (s[0] == '+' || s[0] == '-') && |s| == 1 then Err(InvalidDigit)
    else
      var ds := if s[0] == '+' then s[1..] else s;
      AccumulateMeaning(0, ds);
      AccumulateInvalidDigitAnywhere(ds);
      AccumulateOverflowAnywhere(ds);
      Accumulate(0, ds)
  }

  /**
    Overflow is found before a later non-digit: a run of digits too large for
    a `usize` followed by a non-digit is `PosOverflow`, with or without `+`.
   */
  lemma OverflowBeforeInvalidDigit(ds: string, i: nat)
    requires 0 < i < |ds| && AllDigits(ds[..i]) && !IsDigit(ds[i]) && DecimalValue(ds[..i]) > USIZE_MAX
    ensures ParseUsize(ds) == Err(PosOverflow)
    ensures ParseUsize(['+'] + ds) == Err(PosOverflow)
  {
    assert IsDigit(ds[..i][0]);
    assert Unsigned(ds) == ds;
    assert Unsigned(['+'] + ds) == ds;
  }
}
