/** The view index `tela` and the text each view shows. */
module Views {
  import opened Bits
  import opened Dht11

  /** Number of views. */
  const ViewCount := 4

  /** C's `%` on `int`: the remainder takes the sign of the dividend. */
  function CRem(a: int, n: int): (r: int)
    requires n > 0
    ensures a >= 0 ==> 0 <= r < n
    ensures a < 0 ==> -n < r <= 0
    ensures (a - r) % n == 0
  {
    if a >= 0 then
      DropRemainder(a, n, 1);
      a % n
    else
      DropRemainder(-a, n, -1);
      -((-a) % n)
  }

  /** The forward button: `tela = (tela + 1) % 4`. */
  function Forward(tela: int): (r: int)
    ensures 0 <= tela <= 3 ==> 0 <= r <= 3
  {
    CRem(tela + 1, ViewCount)
  }

  /** The backward button: `tela = (tela == 0) ? 3 : tela - 1`. */
  function Backward(tela: int): (r: int)
    ensures 0 <= tela <= 3 ==> 0 <= r <= 3
  {
    if tela == 0 then 3 else tela - 1
  }

  /** One pass over the two buttons: the forward check, then, independently,
      the backward check. */
  function AfterButtons(tela: int, forward: bool, backward: bool): (r: int)
    ensures 0 <= tela <= 3 ==> 0 <= r <= 3
    ensures 0 <= tela <= 3 && forward == backward ==> r == tela
  {
    var t := if forward then Forward(tela) else tela;
    if backward then Backward(t) else t
  }

  /** `n` forward presses. */
  function ForwardTimes(tela: int, n: nat): int
  {
    if n == 0 then tela else Forward(ForwardTimes(tela, n - 1))
  }

  lemma BackwardUndoesForward(tela: int)
    requires 0 <= tela <= 3
    ensures Backward(Forward(tela)) == tela
  {
  }

  lemma ForwardUndoesBackward(tela: int)
    requires 0 <= tela <= 3
    ensures Forward(Backward(tela)) == tela
  {
  }

  /** Pressing both buttons in one pass changes nothing. */
  lemma BothButtonsCancel(tela: int)
    requires 0 <= tela <= 3
    ensures AfterButtons(tela, true, true) == tela
  {
  }

  /** From any view, `n` forward presses land on view `(tela + n) mod 4`:
      the views cycle with period four. */
  lemma {:induction false} ForwardTimesCycles(tela: int, n: nat)
    requires 0 <= tela <= 3
    ensures ForwardTimes(tela, n) == (tela + n) % ViewCount
  {
    if n > 0 {
      ForwardTimesCycles(tela, n - 1);
      ForwardOfMod(tela + n - 1);
    }
  }

  /** A forward press from the view `a mod 4` lands on `(a + 1) mod 4`. */
  lemma ForwardOfMod(a: nat)
    ensures Forward(a % ViewCount) == (a + 1) % ViewCount
  {
    var q, r := a / 4, a % 4;
    DivUnique(a, 4, q, r);
    if r < 3 {
      DivUnique(a + 1, 4, q, r + 1);
      DivUnique(r + 1, 4, 0, r + 1);
    } else {
      DivUnique(a + 1, 4, q + 1, 0);
      DivUnique(r + 1, 4, 1, 0);
    }
  }

  /** From view 0, five forward presses visit 1, 2, 3, 0, 1, and one
      backward press gives 3. */
  lemma ViewSequenceFromZero()
    ensures [ForwardTimes(0, 1), ForwardTimes(0, 2), ForwardTimes(0, 3),
             ForwardTimes(0, 4), ForwardTimes(0, 5)] == [1, 2, 3, 0, 1]
    ensures Backward(0) == 3
  {
    ForwardTimesCycles(0, 5);
  }

  // ---------------------------------------------------------------------
  // Decimal text, standing in for `sprintf`'s `%d` on non-negative values

  predicate IsDigit(c: char)
  {
    '0' <= c <= '9'
  }

  function Digit(d: nat): (c: char)
    requires d < 10
    ensures IsDigit(c)
  {
    ('0' as int + d) as char
  }

  /** `%d` of a non-negative value: its decimal digits, most significant
      first, without leading zeros. */
  function Decimal(n: nat): (s: string)
    ensures |s| >= 1 && forall k :: 0 <= k < |s| ==> IsDigit(s[k])
    ensures (|s| == 1) == (n < 10)
    ensures s[0] == '0' ==> n == 0
  {
    if n < 10 then [Digit(n)] else Decimal(n / 10) + [Digit(n % 10)]
  }

  function DigitValue(c: char): (d: nat)
    requires IsDigit(c)
    ensures d < 10 && Digit(d) == c
  {
    c as int - '0' as int
  }

  /** The value of a string of decimal digits. */
  function ParseDecimal(s: string): nat
    requires forall k :: 0 <= k < |s| ==> IsDigit(s[k])
  {
    if s == [] then 0
    else 10 * ParseDecimal(s[..|s| - 1]) + DigitValue(s[|s| - 1])
  }

  /** The digits `%d` prints read back as the value printed. */
  lemma {:induction false} ParseDecimalOfDecimal(n: nat)
    ensures ParseDecimal(Decimal(n)) == n
  {
    if n >= 10 {
      ParseDecimalOfDecimal(n / 10);
      var s := Decimal(n);
      assert s[..|s| - 1] == Decimal(n / 10);
    }
  }

  // ---------------------------------------------------------------------
  // Rendering

  /** `f = c * 18 + 320`: degrees Celsius to tenths of a degree Fahrenheit. */
  function FahrenheitTenths(c: int): (f: int)
    ensures c >= 0 ==> f >= 320 && f / 10 * 10 + f % 10 == f && 0 <= f % 10 <= 9
    ensures f % 2 == 0
  {
    c * 18 + 320
  }

  /** The text `main` writes for the reading `d` in view `tela`; nothing for
      an index outside the four views. */
  function Render(d: seq<Byte>, tela: int): (s: string)
    requires |d| == FrameBytes
    ensures s == "Checksum erro" <==> !ChecksumOk(d)
    ensures s == [] <==> ChecksumOk(d) && !(0 <= tela <= 3)
    ensures ChecksumOk(d) && tela == 0 ==> s == "Medicoes:"
  {
    if !ChecksumOk(d) then "Checksum erro"
    else if tela == 0 then "Medicoes:"
    else if tela == 1 then
      var s := "Temp: " + Decimal(d[2]) + " C";
      assert s[0] == 'T';
      s
    else if tela == 2 then
      var s := "Umid: " + Decimal(d[0]) + " %";
      assert s[0] == 'U';
      s
    else if tela == 3 then
      var f := FahrenheitTenths(d[2]);
      var s := "Temp: " + Decimal(f / 10) + "." + Decimal(f % 10) + "F";
      assert s[0] == 'T';
      s
    else ""
  }

  /** A failed checksum shows the error text whatever view is selected. */
  lemma ChecksumErrorOverridesView(d: seq<Byte>, tela: int)
    requires |d| == FrameBytes && !ChecksumOk(d)
    ensures Render(d, tela) == "Checksum erro"
  {
  }

  /** With a valid reading, view 1 shows the temperature byte and view 2
      the humidity byte, each as the digits `%d` prints for it (no leading
      zero), reading back as that value. */
  lemma WholeViewsReadBack(d: seq<Byte>)
    requires |d| == FrameBytes && ChecksumOk(d)
    ensures var s := Render(d, 1);
      |s| >= 9 && s[..6] == "Temp: " && s[|s| - 2..] == " C" &&
      s[6..|s| - 2] == Decimal(d[2]) &&
      (forall k :: 6 <= k < |s| - 2 ==> IsDigit(s[k])) && ParseDecimal(s[6..|s| - 2]) == d[2]
    ensures var s := Render(d, 2);
      |s| >= 9 && s[..6] == "Umid: " && s[|s| - 2..] == " %" &&
      s[6..|s| - 2] == Decimal(d[0]) &&
      (forall k :: 6 <= k < |s| - 2 ==> IsDigit(s[k])) && ParseDecimal(s[6..|s| - 2]) == d[0]
  {
    var t, h := Decimal(d[2]), Decimal(d[0]);
    var s1, s2 := Render(d, 1), Render(d, 2);
    assert s1[6..|s1| - 2] == t;
    assert s2[6..|s2| - 2] == h;
    ParseDecimalOfDecimal(d[2]);
    ParseDecimalOfDecimal(d[0]);
  }

  /** With a valid reading, view 3 shows the `%d` digits of `f / 10`, a
      point and the single tenths digit `f % 10`, and the text reads back
      as `f`. */
  lemma FahrenheitReadsBack(d: seq<Byte>)
    requires |d| == FrameBytes && ChecksumOk(d)
    ensures var s, f := Render(d, 3), FahrenheitTenths(d[2]);
      |s| >= 10 && s[..6] == "Temp: " && s[|s| - 3] == '.' && IsDigit(s[|s| - 2]) && s[|s| - 1] == 'F' &&
      s[6..|s| - 3] == Decimal(f / 10) && s[|s| - 2] == Digit(f % 10) &&
      (forall k :: 6 <= k < |s| - 3 ==> IsDigit(s[k])) &&
      10 * ParseDecimal(s[6..|s| - 3]) + DigitValue(s[|s| - 2]) == f
  {
    var f := FahrenheitTenths(d[2]);
    assert 0 <= f % 10 <= 9 && f / 10 * 10 + f % 10 == f;
    var w := Decimal(f / 10);
    var s := Render(d, 3);
    assert s == "Temp: " + w + "." + [Digit(f % 10)] + "F";
    assert s[6..|s| - 3] == w;
    ParseDecimalOfDecimal(f / 10);
  }

  /** The frame [45, 0, 23, 0, 68]: humidity 45 %, 23 degrees Celsius. */
  lemma ExampleFrame()
    ensures ChecksumOk([45, 0, 23, 0, 68])
    ensures Render([45, 0, 23, 0, 68], 0) == "Medicoes:"
    ensures Render([45, 0, 23, 0, 68], 1) == "Temp: 23 C"
    ensures Render([45, 0, 23, 0, 68], 2) == "Umid: 45 %"
    ensures Render([45, 0, 23, 0, 68], 3) == "Temp: 73.4F"
  {
    assert Decimal(23) == "23" by { assert Decimal(2) == "2"; }
    assert Decimal(45) == "45" by { assert Decimal(4) == "4"; }
    assert Decimal(73) == "73" by { assert Decimal(7) == "7"; }
  }

  /** 25 degrees Celsius shows "77.0F" and 0 shows "32.0F". */
  lemma FahrenheitExamples()
    ensures Render([0, 0, 25, 0, 25], 3) == "Temp: 77.0F"
    ensures Render([0, 0, 0, 0, 0], 3) == "Temp: 32.0F"
  {
    assert Decimal(77) == "77" by { assert Decimal(7) == "7"; }
    assert Decimal(32) == "32" by { assert Decimal(3) == "3"; }
  }
}
