/** Decimal digits: the fixed-width numeric fields of the canonical
    timestamp, and java.lang.Integer's parseInt and toString. */
module Decimal {
  import opened Results

  /** The range of a Java int. */
  const MinInt: int := -0x8000_0000
  const MaxInt: int := 0x7fff_ffff

  predicate IsDigit(c: char) {
    '0' <= c <= '9'
  }

  predicate AllDigits(s: string) {
    forall i :: 0 <= i < |s| ==> IsDigit(s[i])
  }

  function DigitValue(c: char): (d: nat)
    requires IsDigit(c)
    ensures d < 10
  {
    c as int - '0' as int
  }

  function DigitChar(d: nat): (c: char)
    requires d < 10
    ensures IsDigit(c) && DigitValue(c) == d
  {
    ('0' as int + d) as char
  }

  /** The number a run of digits denotes, most significant digit first. */
  function DecimalValue(s: string): nat
    requires AllDigits(s)
  {
    if s == [] then 0 else 10 * DecimalValue(s[..|s| - 1]) + DigitValue(s[|s| - 1])
  }

  function Pow10(w: nat): nat
  {
    if w == 0 then 1 else 10 * Pow10(w - 1)
  }

  /** The low w decimal digits of n, zero-padded on the left. */
  function Pad(n: nat, w: nat): (r: string)
    ensures |r| == w && AllDigits(r)
  {
    if w == 0 then [] else Pad(n / 10, w - 1) + [DigitChar(n % 10)]
  }

  /** Reading back a padded number that fits in w digits gives the number. */
  lemma {:induction false} PadValue(n: nat, w: nat)
    requires n < Pow10(w)
    ensures DecimalValue(Pad(n, w)) == n
  {
    if w > 0 {
      var p := Pad(n / 10, w - 1);
      assert (p + [DigitChar(n % 10)])[..w - 1] == p;
      PadValue(n / 10, w - 1);
    }
  }

  /** A run of w digits denotes less than 10^w. */
  lemma {:induction false} DecimalValueBound(s: string)
    requires AllDigits(s)
    ensures DecimalValue(s) < Pow10(|s|)
    decreases |s|
  {
    if s != [] {
      DecimalValueBound(s[..|s| - 1]);
    }
  }

  /** Padding the value of a digit run to its own width gives the run back:
      a fixed-width field has exactly one spelling. */
  lemma {:induction false} ValuePad(s: string)
    requires AllDigits(s)
    ensures Pad(DecimalValue(s), |s|) == s
  {
    if s != [] {
      var init := s[..|s| - 1];
      var v := DecimalValue(s);
      assert v / 10 == DecimalValue(init);
      assert v % 10 == DigitValue(s[|s| - 1]);
      ValuePad(init);
      assert s == init + [s[|s| - 1]];
    }
  }

  /** Integer.toString of a non-negative number: its digits without leading
      zeros, denoting the number. */
  function DecimalString(n: nat): (r: string)
    ensures r != [] && AllDigits(r)
    ensures DecimalValue(r) == n
    ensures |r| == 1 || r[0] != '0'
    decreases n
  {
    if n < 10 then [DigitChar(n)]
    else
      var init := DecimalString(n / 10);
      var r := init + [DigitChar(n % 10)];
      assert r[..|r| - 1] == init;
      r
  }

  /** Integer.parseInt(s): an optional '+' or '-', then one or more digits,
      denoting a value within the range of a Java int. */
  function ParseInt(s: string): (r: Option<int>)
    ensures r.Some? ==> MinInt <= r.value <= MaxInt
    ensures r.Some? ==> s != [] && (r.value < 0 ==> s[0] == '-') && (r.value > 0 ==> s[0] != '-')
  {
    if s == [] then None
    else
      var signed := s[0] == '-' || s[0] == '+';
      var digits := if signed then s[1..] else s;
      if digits == [] || !AllDigits(digits) then None
      else
        var magnitude := DecimalValue(digits);
        var v: int := if s[0] == '-' then -(magnitude as int) else magnitude as int;
        if MinInt <= v <= MaxInt then Some(v) else None
  }

  /** parseInt's language: a text reads as v exactly when it is a
      non-empty run of digits denoting v, or '+' and such a run, or '-' and
      a run denoting -v; and v is a Java int. Leading zeros are allowed and
      "-0" reads as 0. */
  lemma ParseIntIff(s: string, v: int)
    ensures ParseInt(s) == Some(v) <==>
              MinInt <= v <= MaxInt &&
              (|| (s != [] && AllDigits(s) && DecimalValue(s) == v)
               || (|s| >= 2 && s[0] == '+' && AllDigits(s[1..]) && DecimalValue(s[1..]) == v)
               || (|s| >= 2 && s[0] == '-' && AllDigits(s[1..]) && DecimalValue(s[1..]) == -v))
  {
    if s != [] && AllDigits(s) {
      assert !(s[0] == '-' || s[0] == '+');
    }
  }

  /** Integer.toString. */
  function IntToString(n: int): string
  {
    if n < 0 then "-" + DecimalString(-n) else DecimalString(n)
  }

  /** parseInt reads back what toString writes, for every Java int. */
  lemma ParseIntToString(n: int)
    requires MinInt <= n <= MaxInt
    ensures ParseInt(IntToString(n)) == Some(n)
  {
    var s := IntToString(n);
    if n < 0 {
      assert s[1..] == DecimalString(-n);
    }
  }
}
