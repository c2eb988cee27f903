/** Go's `strconv.Atoi` on a 64-bit platform, and `strconv.Itoa` as its inverse. */
module Strconv {
  import opened Wrappers
  import opened GoArith

  predicate IsDigit(c: char)
  {
    '0' <= c <= '9'
  }

  predicate AllDigits(s: string)
  {
    forall i :: 0 <= i < |s| ==> IsDigit(s[i])
  }

  predicate IsSign(c: char)
  {
    c == '+' || c == '-'
  }

  function DigitValue(c: char): nat
    requires IsDigit(c)
  {
    c as int - '0' as int
  }

  function DigitChar(d: nat): (c: char)
    requires d < 10
    ensures IsDigit(c) && DigitValue(c) == d
  {
    ('0' as int + d) as char
  }

  /** The value of a digit string, accumulated left to right (`n = n*10 + digit`). */
  function DigitsValue(ds: string): nat
    requires AllDigits(ds)
    decreases |ds|
  {
    if |ds| == 0 then 0 else DigitsValue(ds[..|ds| - 1]) * 10 + DigitValue(ds[|ds| - 1])
  }

  /** What follows an optional leading sign. */
  function Magnitude(s: string): string
  {
    if |s| > 0 && IsSign(s[0]) then s[1..] else s
  }

  /** Base-10 syntax accepted by Atoi: an optional `+` or `-`, then one or more digits. */
  predicate IsDecimal(s: string)
  {
    |Magnitude(s)| > 0 && AllDigits(Magnitude(s))
  }

  function DecimalValue(s: string): int
    requires IsDecimal(s)
  {
    var v: int := DigitsValue(Magnitude(s));
    if s[0] == '-' then -v else v
  }

  /** `strconv.Atoi`: None where Go returns an error, which is for any text that is
      not a sign and digits (the empty string, spaces, letters, a second sign) and
      for a number outside the 64-bit range. */
  function Atoi(s: string): (r: Option<int>)
    ensures r.Some? ==> IsInt64(r.value)
    ensures r.Some? ==> |s| > 0 && (IsSign(s[0]) || IsDigit(s[0]))
    ensures r.Some? ==> forall i :: 0 < i < |s| ==> IsDigit(s[i])
    ensures r.Some? ==> IsDigit(s[|s| - 1])
    ensures r.Some? ==> (r.value < 0 ==> s[0] == '-')
  {
    if IsDecimal(s) && IsInt64(DecimalValue(s)) then Some(DecimalValue(s)) else None
  }

  /** Canonical decimal digits of a natural number: no leading zero. */
  function NatDigits(n: nat): (ds: string)
    ensures |ds| > 0 && AllDigits(ds)
    ensures |ds| == 1 || ds[0] != '0'
    decreases n
  {
    if n < 10 then [DigitChar(n)] else NatDigits(n / 10) + [DigitChar(n % 10)]
  }

  /** `strconv.Itoa`: the canonical decimal text of `n`. */
  function Itoa(n: int): (s: string)
    ensures IsDecimal(s)
  {
    if n < 0 then "-" + NatDigits(-n) else NatDigits(n)
  }

  lemma {:induction false} NatDigitsValue(n: nat)
    ensures DigitsValue(NatDigits(n)) == n
    decreases n
  {
    if n >= 10 {
      var ds := NatDigits(n);
      assert ds[..|ds| - 1] == NatDigits(n / 10);
      NatDigitsValue(n / 10);
    }
  }

  /** Itoa's text is decimal syntax for exactly `n`. */
  lemma ItoaValue(n: int)
    ensures IsDecimal(Itoa(n)) && DecimalValue(Itoa(n)) == n
  {
    var s := Itoa(n);
    if n < 0 {
      assert Magnitude(s) == NatDigits(-n);
      NatDigitsValue(-n);
    } else {
      assert Magnitude(s) == NatDigits(n);
      NatDigitsValue(n);
    }
  }

  /** Atoi reads back what Itoa writes, for every 64-bit integer. */
  lemma AtoiItoa(n: int)
    requires IsInt64(n)
    ensures Atoi(Itoa(n)) == Some(n)
  {
    ItoaValue(n);
  }

  /** A number outside the 64-bit range is a parse error, not a wrapped value. */
  lemma AtoiOverflow(n: int)
    requires !IsInt64(n)
    ensures Atoi(Itoa(n)) == None
  {
    ItoaValue(n);
  }

  /** A character that is neither a digit nor a sign anywhere in the text makes Atoi fail. */
  lemma AtoiRejects(s: string, c: char)
    requires c in s && !IsDigit(c) && !IsSign(c)
    ensures Atoi(s) == None
  {
  }

  lemma {:induction false} LeadingNonZeroPositive(ds: string)
    requires AllDigits(ds) && |ds| > 0 && ds[0] != '0'
    ensures DigitsValue(ds) > 0
    decreases |ds|
  {
    if |ds| > 1 {
      LeadingNonZeroPositive(ds[..|ds| - 1]);
    }
  }

  lemma {:induction false} NatDigitsOfValue(ds: string)
    requires AllDigits(ds) && |ds| > 0 && (|ds| == 1 || ds[0] != '0')
    ensures NatDigits(DigitsValue(ds)) == ds
    decreases |ds|
  {
    var init := ds[..|ds| - 1];
    if |ds| > 1 {
      LeadingNonZeroPositive(init);
      NatDigitsOfValue(init);
      assert ds == init + [ds[|ds| - 1]];
    } else {
      assert ds == [ds[0]];
    }
  }

  /** The text Itoa produces: no `+`, no leading zero, no `-0`. */
  predicate IsCanonical(s: string)
  {
    && IsDecimal(s)
    && s[0] != '+'
    && (|Magnitude(s)| == 1 || Magnitude(s)[0] != '0')
    && (s[0] == '-' ==> Magnitude(s) != "0")
  }

  /** Itoa writes back exactly the canonical text Atoi accepted. */
  lemma ItoaAtoi(s: string)
    requires IsCanonical(s) && Atoi(s).Some?
    ensures Itoa(Atoi(s).value) == s
  {
    var m := Magnitude(s);
    NatDigitsOfValue(m);
    if s[0] == '-' {
      if DigitsValue(m) == 0 {
        LeadingNonZeroPositive(m);
      }
      assert s == "-" + m;
    }
  }

  /** A leading zero digit does not change a digit string's value. */
  lemma {:induction false} DigitsValueLeadingZero(ds: string)
    requires AllDigits(ds)
    ensures AllDigits("0" + ds) && DigitsValue("0" + ds) == DigitsValue(ds)
    decreases |ds|
  {
    var z := "0" + ds;
    if |ds| > 0 {
      assert z[..|z| - 1] == "0" + ds[..|ds| - 1];
      assert z[|z| - 1] == ds[|ds| - 1];
      DigitsValueLeadingZero(ds[..|ds| - 1]);
    } else {
      assert z[..0] == [];
    }
  }

  /** Atoi accepts an explicit `+` before the digits, with the same result. */
  lemma AtoiPlusSign(ds: string)
    requires AllDigits(ds)
    ensures Atoi("+" + ds) == Atoi(ds)
  {
    assert Magnitude("+" + ds) == ds;
    if |ds| > 0 {
      assert Magnitude(ds) == ds;
    }
  }

  /** Atoi accepts zero padding: a leading `0` before a non-empty digit string
      changes nothing. */
  lemma AtoiLeadingZero(ds: string)
    requires AllDigits(ds) && |ds| > 0
    ensures Atoi("0" + ds) == Atoi(ds)
  {
    DigitsValueLeadingZero(ds);
    assert Magnitude("0" + ds) == "0" + ds;
    assert Magnitude(ds) == ds;
  }

  /** A minus sign before digits negates their value, so `-0` reads as 0. */
  lemma AtoiMinusSign(ds: string)
    requires AllDigits(ds) && |ds| > 0
    ensures Atoi("-" + ds) == (if DigitsValue(ds) <= -MinInt64 then Some(-(DigitsValue(ds) as int)) else None)
  {
    assert Magnitude("-" + ds) == ds;
  }
}
