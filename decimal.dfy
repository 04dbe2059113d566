/**
 * Decimal text for natural and signed integers: digit classification, the canonical
 * rendering of a number (std::to_string for integers) and the strict parser that
 * accepts exactly the canonical renderings.
 */
module Decimal {
  import opened Wrappers

  predicate IsDigit(c: char) {
    '0' <= c <= '9'
  }

  function DigitValue(c: char): nat
    requires IsDigit(c)
  {
    c as int - '0' as int
  }

  function DigitChar(d: nat): (c: char)
    requires d < 10
    ensures IsDigit(c) && DigitValue(c) == d
  {
    (d + '0' as int) as char
  }

  predicate AllDigits(s: string) {
    forall i :: 0 <= i < |s| ==> IsDigit(s[i])
  }

  /** The value of a string of digits, most significant digit first. */
  function ValueOf(s: string): nat
    requires AllDigits(s)
    decreases |s|
  {
    if s == [] then 0 else 10 * ValueOf(s[..|s| - 1]) + DigitValue(s[|s| - 1])
  }

  /** A canonical decimal: at least one digit, only digits, no leading zero except "0" itself. */
  predicate Canonical(s: string) {
    |s| >= 1 && AllDigits(s) && (s[0] == '0' ==> |s| == 1)
  }

  /** The canonical decimal rendering of n. */
  function ToDecimal(n: nat): (s: string)
    ensures Canonical(s)
    ensures n > 0 ==> s[0] != '0'
    decreases n
  {
    if n < 10 then [DigitChar(n)] else ToDecimal(n / 10) + [DigitChar(n % 10)]
  }

  /** Strict parse: the value of a canonical decimal, nothing for any other text. */
  function Parse(s: string): (r: Option<nat>)
    ensures r.Some? ==> Canonical(s)
  {
    if Canonical(s) then Some(ValueOf(s)) else None
  }

  /** Signed rendering, as std::to_string prints an int. */
  function IntToString(v: int): (s: string)
    ensures |s| >= 1
    ensures v < 0 <==> s[0] == '-'
  {
    if v < 0 then "-" + ToDecimal(-v) else ToDecimal(v)
  }

  lemma {:induction false} ValueOfToDecimal(n: nat)
    ensures ValueOf(ToDecimal(n)) == n
    decreases n
  {
    if n >= 10 {
      var s := ToDecimal(n);
      assert s[..|s| - 1] == ToDecimal(n / 10);
      ValueOfToDecimal(n / 10);
    }
  }

  /** Parsing undoes rendering. */
  lemma ParseToDecimal(n: nat)
    ensures Parse(ToDecimal(n)) == Some(n)
  {
    ValueOfToDecimal(n);
  }

  /** Rendering undoes parsing: the parser accepts one text per number, its canonical one. */
  lemma {:induction false} ToDecimalParse(s: string)
    requires Parse(s).Some?
    ensures ToDecimal(Parse(s).value) == s
    decreases |s|
  {
    var n := ValueOf(s);
    var init := s[..|s| - 1];
    var d := DigitValue(s[|s| - 1]);
    assert AllDigits(init);
    assert n == 10 * ValueOf(init) + d;
    if |s| == 1 {
      assert init == [];
      assert ValueOf(init) == 0;
      assert n == d;
      assert ToDecimal(n) == [DigitChar(d)];
    } else {
      assert Canonical(init) by {
        assert forall i :: 0 <= i < |init| ==> init[i] == s[i];
      }
      ToDecimalParse(init);
      var m := ValueOf(init);
      ValueOfPositive(init);
      assert n == 10 * m + d;
      assert n / 10 == m && n % 10 == d;
      assert DigitChar(d) == s[|s| - 1];
      assert s == init + [s[|s| - 1]];
    }
  }

  lemma {:induction false} ValueOfPositive(s: string)
    requires AllDigits(s) && |s| >= 1 && s[0] != '0'
    ensures ValueOf(s) > 0
    decreases |s|
  {
    if |s| > 1 {
      var init := s[..|s| - 1];
      assert AllDigits(init) && init[0] == s[0];
      ValueOfPositive(init);
    }
  }

  /** No text holding a non-digit parses. */
  lemma ParseRejectsNonDigit(s: string, i: nat)
    requires i < |s| && !IsDigit(s[i])
    ensures Parse(s) == None
  {
  }

  /** Different numbers print differently, so a message that quotes a number names it. */
  lemma IntToStringInjective(v: int, w: int)
    requires IntToString(v) == IntToString(w)
    ensures v == w
  {
    if v < 0 {
      assert w < 0;
      assert ToDecimal(-v) == IntToString(v)[1..] == IntToString(w)[1..] == ToDecimal(-w);
      ParseToDecimal(-v);
      ParseToDecimal(-w);
    } else {
      assert w >= 0;
      ParseToDecimal(v);
      ParseToDecimal(w);
    }
  }
}
