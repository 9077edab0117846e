/**
 * The `SIGNED_INT` terminal (an optional `+` or `-`, then one or more decimal digits)
 * and Python's `int(...)` applied to such a lexeme: an unbounded integer, leading
 * zeros allowed, but at most `MaxStrDigits` digits, CPython's default limit on
 * decimal text converted to `int`.
 */
module Numbers {
  import opened Errors

  predicate IsDigit(c: char)
  {
    '0' <= c <= '9'
  }

  predicate IsDigits(s: string)
  {
    |s| > 0 && forall i :: 0 <= i < |s| ==> IsDigit(s[i])
  }

  predicate IsSign(c: char)
  {
    c == '+' || c == '-'
  }

  predicate IsSignedInt(s: string)
  {
    IsDigits(s) || (|s| > 1 && IsSign(s[0]) && IsDigits(s[1..]))
  }

  /** The number a run of decimal digits denotes. */
  function DigitsValue(s: string): nat
    requires forall i :: 0 <= i < |s| ==> IsDigit(s[i])
    decreases |s|
  {
    if s == [] then 0
    else DigitsValue(s[..|s| - 1]) * 10 + DigitValue(s[|s| - 1])
  }

  function DigitValue(c: char): (d: nat)
    requires IsDigit(c)
    ensures d < 10
  {
    c as int - '0' as int
  }

  /** CPython's default for `sys.get_int_max_str_digits()`: `int()` refuses decimal text with more digits. */
  const MaxStrDigits: nat := 4300

  /** The number of digits of a number lexeme: its length without the sign. Leading zeros count. */
  function DigitCount(s: string): (n: nat)
    ensures n <= |s|
  {
    if |s| > 0 && IsSign(s[0]) then |s| - 1 else |s|
  }

  /** `int(s)` for a `SIGNED_INT` lexeme `s`: its value, or the digit-limit error when it has more
      than `MaxStrDigits` digits. Any other text is refused with the invalid-literal error. */
  function ParseInt(s: string): (r: Result<int>)
    ensures r.Success? <==> IsSignedInt(s) && DigitCount(s) <= MaxStrDigits
    ensures r.Failure? && !IsSignedInt(s) ==> r.error == InvalidLiteral(s)
    ensures r.Failure? && IsSignedInt(s) ==> r.error == TooManyDigits(DigitCount(s))
  {
    if !IsSignedInt(s) then Failure(InvalidLiteral(s))
    else if DigitCount(s) > MaxStrDigits then Failure(TooManyDigits(DigitCount(s)))
    else if IsDigits(s) then Success(DigitsValue(s))
    else
      var magnitude: int := DigitsValue(s[1..]);
      if s[0] == '-' then Success(-magnitude) else Success(magnitude)
  }

  function DigitChar(d: nat): (c: char)
    requires d < 10
    ensures IsDigit(c) && DigitValue(c) == d
  {
    ('0' as int + d) as char
  }

  /** The decimal digits of `n`, without leading zeros. */
  function ShowNat(n: nat): (s: string)
    ensures IsDigits(s)
    decreases n
  {
    if n < 10 then [DigitChar(n)] else ShowNat(n / 10) + [DigitChar(n % 10)]
  }

  /** The usual decimal spelling of `n`, `-` in front of a negative number. */
  function Show(n: int): (s: string)
    ensures IsSignedInt(s)
  {
    if n < 0 then "-" + ShowNat(-n) else ShowNat(n)
  }

  lemma {:induction false} DigitsValueShowNat(n: nat)
    ensures DigitsValue(ShowNat(n)) == n
    decreases n
  {
    var s := ShowNat(n);
    if n >= 10 {
      DigitsValueShowNat(n / 10);
      assert s[..|s| - 1] == ShowNat(n / 10);
    }
  }

  /** Every integer is the value of its own decimal text, unless that text has more digits
      than `int()` accepts: the only bound is the digit limit, and nothing overflows. */
  lemma ParseShow(n: int)
    ensures ParseInt(Show(n)) ==
      if DigitCount(Show(n)) <= MaxStrDigits then Success(n) else Failure(TooManyDigits(DigitCount(Show(n))))
  {
    if n < 0 {
      DigitsValueShowNat(-n);
      assert Show(n)[1..] == ShowNat(-n);
    } else {
      DigitsValueShowNat(n);
    }
  }

  function Pow10(k: nat): (p: nat)
    ensures p >= 1
  {
    if k == 0 then 1 else 10 * Pow10(k - 1)
  }

  /** The decimal text of `n` has at most `k` digits exactly when `n < 10^k`. */
  lemma {:induction false} ShowNatDigits(n: nat, k: nat)
    requires k >= 1
    ensures |ShowNat(n)| <= k <==> n < Pow10(k)
    decreases k
  {
    if n >= 10 && k > 1 {
      ShowNatDigits(n / 10, k - 1);
      assert n / 10 < Pow10(k - 1) <==> n < 10 * Pow10(k - 1);
    } else if n >= 10 {
      assert |ShowNat(n)| == |ShowNat(n / 10)| + 1;
    }
  }

  /** `int()` reads back the decimal text of `n` exactly when `|n| < 10^MaxStrDigits`. */
  lemma ShowWithinLimit(n: int)
    ensures ParseInt(Show(n)).Success? <==> (if n < 0 then -n else n) < Pow10(MaxStrDigits)
    ensures ParseInt(Show(n)).Success? ==> ParseInt(Show(n)).value == n
  {
    ParseShow(n);
    ShowDigitCount(n, MaxStrDigits);
  }

  lemma ShowDigitCount(n: int, k: nat)
    requires k >= 1
    ensures DigitCount(Show(n)) <= k <==> (if n < 0 then -n else n) < Pow10(k)
  {
    if n < 0 {
      assert DigitCount(Show(n)) == |ShowNat(-n)|;
      ShowNatDigits(-n, k);
    } else {
      assert DigitCount(Show(n)) == |ShowNat(n)|;
      ShowNatDigits(n, k);
    }
  }

  /** A leading `+` changes nothing and a leading `-` negates; the sign is not a digit. */
  lemma SignedDigits(ds: string)
    requires IsDigits(ds)
    ensures ParseInt("+" + ds) == ParseInt(ds)
    ensures ParseInt("-" + ds) == if ParseInt(ds).Success? then Success(-ParseInt(ds).value) else ParseInt(ds)
  {
    assert ("+" + ds)[0] == '+' && ("+" + ds)[1..] == ds;
    assert ("-" + ds)[0] == '-' && ("-" + ds)[1..] == ds;
  }

  lemma {:induction false} DigitsValueLeadingZero(ds: string)
    requires forall i :: 0 <= i < |ds| ==> IsDigit(ds[i])
    ensures DigitsValue("0" + ds) == DigitsValue(ds)
    decreases |ds|
  {
    if ds != [] {
      var init := ds[..|ds| - 1];
      DigitsValueLeadingZero(init);
      assert ("0" + ds)[..|ds|] == "0" + init;
    }
  }

  /** A leading zero does not change the value, but it counts toward the digit limit. */
  lemma LeadingZero(ds: string)
    requires IsDigits(ds)
    ensures ParseInt("0" + ds) == if |ds| < MaxStrDigits then ParseInt(ds) else Failure(TooManyDigits(|ds| + 1))
  {
    DigitsValueLeadingZero(ds);
  }
}
