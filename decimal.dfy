/** Base-10 reading of a field's text, the job of `Integer.parseInt` in `toInt`. */
module Decimal {
  import opened Bytes

  /** A parsed number, or the failure `parseInt` signals by throwing. */
  datatype Numeric = Value(value: nat) | MalformedNumeric

  const Zero: byte := 0x30

  predicate IsDigit(b: byte)
  {
    0x30 <= b <= 0x39
  }

  predicate AllDigits(s: seq<byte>)
  {
    forall i :: 0 <= i < |s| ==> IsDigit(s[i])
  }

  function DigitValue(b: byte): nat
    requires IsDigit(b)
  {
    (b - Zero) as nat
  }

  function Digit(d: nat): byte
    requires d < 10
  {
    (d + 0x30) as byte
  }

  /** The number a digit string denotes, most significant digit first. */
  function DigitsValue(s: seq<byte>): nat
    requires AllDigits(s)
  {
    if s == [] then 0 else 10 * DigitsValue(s[..|s| - 1]) + DigitValue(s[|s| - 1])
  }

  /** Decimal text to a number: one or more ASCII digits, nothing else. */
  function Parse(s: seq<byte>): (r: Numeric)
    ensures r.Value? <==> s != [] && AllDigits(s)
    ensures r.Value? ==> r.value == DigitsValue(s)
  {
    if s != [] && AllDigits(s) then Value(DigitsValue(s)) else MalformedNumeric
  }

  /** The canonical decimal text of a number: digits, no leading zero. */
  function Render(n: nat): (s: seq<byte>)
    ensures s != [] && AllDigits(s)
    ensures s[0] == Zero ==> n == 0
    ensures n == 0 ==> s == [Zero]
  {
    if n < 10 then [Digit(n)] else Render(n / 10) + [Digit(n % 10)]
  }

  /** Reading back the canonical text of a number gives that number. */
  lemma {:induction false} ParseRender(n: nat)
    ensures Parse(Render(n)) == Value(n)
  {
    var s := Render(n);
    if n < 10 {
      assert s[..0] == [];
      assert DigitsValue(s) == DigitValue(Digit(n)) == n;
    } else {
      ParseRender(n / 10);
      assert s[..|s| - 1] == Render(n / 10);
      assert DigitsValue(s) == 10 * (n / 10) + DigitValue(Digit(n % 10)) == n;
    }
  }

  lemma {:induction false} LeadingDigitPositive(s: seq<byte>)
    requires s != [] && AllDigits(s) && s[0] != Zero
    ensures DigitsValue(s) > 0
  {
    if |s| > 1 {
      var init := s[..|s| - 1];
      assert init[0] == s[0];
      LeadingDigitPositive(init);
    }
  }

  /** A digit string without a leading zero is the canonical text of its value. */
  lemma {:induction false} RenderParse(s: seq<byte>)
    requires s != [] && AllDigits(s)
    requires |s| == 1 || s[0] != Zero
    ensures Render(DigitsValue(s)) == s
  {
    if |s| > 1 {
      var init := s[..|s| - 1];
      assert init[0] == s[0];
      LeadingDigitPositive(init);
      RenderParse(init);
      var n := DigitsValue(s);
      assert n / 10 == DigitsValue(init) && n % 10 == DigitValue(s[|s| - 1]);
      assert s == init + [s[|s| - 1]];
    }
  }

  /** A leading zero does not change the value. */
  lemma {:induction false} LeadingZeroValue(s: seq<byte>)
    requires AllDigits(s)
    ensures AllDigits([Zero] + s) && DigitsValue([Zero] + s) == DigitsValue(s)
  {
    var u := [Zero] + s;
    assert AllDigits(u) by {
      forall i | 0 <= i < |u| ensures IsDigit(u[i]) {
        if i > 0 { assert u[i] == s[i - 1]; }
      }
    }
    if s == [] {
      assert u[..0] == [];
    } else {
      var init := s[..|s| - 1];
      assert AllDigits(init) by {
        forall i | 0 <= i < |init| ensures IsDigit(init[i]) { assert init[i] == s[i]; }
      }
      assert u[..|u| - 1] == [Zero] + init;
      assert u[|u| - 1] == s[|s| - 1];
      LeadingZeroValue(init);
    }
  }

  /**
   * Digit text is read whatever its leading zeros: prefixing a zero keeps
   * the parse, so every digit string reads as its canonical text does.
   */
  lemma LeadingZeroIgnored(s: seq<byte>)
    requires s != [] && AllDigits(s)
    ensures Parse([Zero] + s) == Parse(s)
  {
    LeadingZeroValue(s);
  }

  /** "42" reads as 42, "0" as 0, and "4a" is rejected. */
  lemma ParseExamples()
    ensures Parse([0x34, 0x32]) == Value(42)
    ensures Parse([0x30]) == Value(0)
    ensures Parse([0x34, 0x61]) == MalformedNumeric
    ensures Parse([0x30, 0x30, 0x37]) == Value(7)
  {
    var fortyTwo: seq<byte> := [0x34, 0x32];
    assert fortyTwo[..1][..0] == [];
    assert DigitsValue(fortyTwo[..1]) == 4;
    assert DigitsValue(fortyTwo) == 42;
    var seven: seq<byte> := [0x37];
    assert seven[..0] == [];
    assert DigitsValue(seven) == 7;
    LeadingZeroIgnored(seven);
    assert [Zero] + seven == [0x30, 0x37];
    LeadingZeroIgnored([0x30, 0x37]);
    assert [Zero] + [0x30, 0x37] == [0x30, 0x30, 0x37];
  }
}
