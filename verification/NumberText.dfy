// Positional number text: what it is and that it reads back.  Characters are
// ASCII codes.

module NumberText {

  function Pow(base: nat, n: nat): nat {
    if n == 0 then 1 else base * Pow(base, n - 1)
  }

  function DigitChar(d: int): int { if d < 10 then 48 + d else 65 + (d - 10) }

  function DigitValue(c: int): int { if c < 65 then c - 48 else c - 65 + 10 }

  // Exactly n digits of v, most significant first; higher digits are dropped.
  function Digits(v: nat, base: nat, n: nat): (s: seq<int>)
    requires 2 <= base
    ensures |s| == n
  {
    if n == 0 then [] else Digits(v / base, base, n - 1) + [DigitChar(v % base)]
  }

  // The value of a digit string.
  function Value(s: seq<int>, base: nat): int {
    if s == [] then 0 else Value(s[..|s| - 1], base) * base + DigitValue(s[|s| - 1])
  }

  ghost predicate IsNumber(s: seq<int>, base: nat) {
    forall i :: 0 <= i < |s| ==> 0 <= DigitValue(s[i]) < base && s[i] == DigitChar(DigitValue(s[i]))
  }

  // The shortest decimal text.
  function Decimal(v: nat): seq<int> {
    if v < 10 then [DigitChar(v)] else Decimal(v / 10) + [DigitChar(v % 10)]
  }

  lemma DivMul(v: nat, base: nat)
    requires 0 < base
    ensures v / base * base + v % base == v && 0 <= v % base < base
  {
  }

  lemma DivBelow(v: nat, base: nat, bound: nat)
    requires 0 < base && v < base * bound
    ensures v / base < bound
  {
    if v / base >= bound {
      assert base * bound <= base * (v / base) by { MulMonotonic(base, bound, v / base); }
    }
  }

  lemma MulMonotonic(a: nat, x: nat, y: nat)
    requires x <= y
    ensures a * x <= a * y
  {
  }

  // n digits hold every number below base^n, and read back.
  lemma {:induction false} DigitsReadBack(v: nat, base: nat, n: nat)
    requires 2 <= base <= 16 && v < Pow(base, n)
    ensures IsNumber(Digits(v, base, n), base) && Value(Digits(v, base, n), base) == v
  {
    if n != 0 {
      DivBelow(v, base, Pow(base, n - 1));
      DigitsReadBack(v / base, base, n - 1);
      DivMul(v, base);
      var s := Digits(v, base, n);
      hide Pow;
      assert s[..n - 1] == Digits(v / base, base, n - 1) && s[n - 1] == DigitChar(v % base);
    }
  }

  // Decimal text reads back, has only digits and no leading zero.
  lemma {:induction false} DecimalReadsBack(v: nat)
    ensures var s := Decimal(v);
            && s != [] && IsNumber(s, 10) && Value(s, 10) == v
            && (0 < v ==> s[0] != DigitChar(0))
  {
    var s := Decimal(v);
    if v < 10 {
      assert s[..0] == [];
      assert Value(s[..0], 10) == 0;
    } else {
      DecimalReadsBack(v / 10);
      assert s[..|s| - 1] == Decimal(v / 10);
    }
  }

  lemma {:induction false} DecimalLength(v: nat, n: nat)
    requires v < Pow(10, n) && 0 < n
    ensures |Decimal(v)| <= n
  {
    if 10 <= v {
      DivBelow(v, 10, Pow(10, n - 1));
      assert 0 < n - 1 by { assert Pow(10, 1) == 10 * Pow(10, 0); }
      DecimalLength(v / 10, n - 1);
    }
  }

  // A 32-bit number has at most ten decimal digits.
  lemma WordHasTenDigits(v: nat)
    requires v < 0x1_0000_0000
    ensures |Decimal(v)| <= 10
  {
    assert Pow(10, 5) == 100000 by {
      assert Pow(10, 1) == 10 && Pow(10, 2) == 100 && Pow(10, 3) == 1000 && Pow(10, 4) == 10000;
    }
    assert Pow(10, 10) == 10000000000 by {
      assert Pow(10, 6) == 1000000 && Pow(10, 7) == 10000000 && Pow(10, 8) == 100000000 && Pow(10, 9) == 1000000000;
    }
    DecimalLength(v, 10);
  }

  // ----- Reading a 32-bit word from the top, four bits at a time -----

  function Pow16(i: nat): nat
    requires i <= 8
  {
    if i == 0 then 1 else if i == 1 then 0x10 else if i == 2 then 0x100 else if i == 3 then 0x1000
    else if i == 4 then 0x10000 else if i == 5 then 0x100000 else if i == 6 then 0x1000000
    else if i == 7 then 0x10000000 else 0x100000000
  }

  // The word after i shifts by four.
  function Shifted(v: nat, i: nat): nat
    requires i <= 8
  {
    v % Pow16(8 - i) * Pow16(i)
  }

  lemma DivUnique(v: nat, m: nat, b: nat, r: nat)
    requires r < m && v == b * m + r
    ensures v / m == b && v % m == r
  {
    DivMul(v, m);
    var q := v / m;
    assert m * (q + 1) == q * m + m && m * (b + 1) == b * m + m;
  }

  // Splitting off one hexadecimal digit above position q.
  lemma SplitAt(v: nat, q: nat)
    requires 0 < q
    ensures v / (16 * q) == v / q / 16
    ensures v % (16 * q) == v / q % 16 * q + v % q
  {
    var a, r := v / q, v % q;
    var b, d := a / 16, a % 16;
    DivMul(v, q);
    assert v == b * (16 * q) + (d * q + r) by {
      assert a * q == (16 * b + d) * q == b * (16 * q) + d * q;
    }
    assert d * q + r < 16 * q by { MulMonotonic(q, d, 15); }
    DivUnique(v, 16 * q, b, d * q + r);
  }

  lemma ShiftDigit(d: nat, r: nat, q: nat, c: nat)
    requires d < 16 && r < q && q * c == 0x10000000
    ensures var w := (d * q + r) * c;
            w < 0x100000000 && w / 0x10000000 == d && w * 16 % 0x100000000 == r * (16 * c)
  {
    var w, s := (d * q + r) * c, r * c;
    assert s < 0x10000000 by {
      MulMonotonic(c, r + 1, q);
      assert c * (r + 1) == r * c + c;
    }
    TopDigit(w, d, s);
    assert r * (16 * c) == 16 * s;
  }

  lemma TopDigit(w: nat, d: nat, s: nat)
    requires d < 16 && s < 0x10000000 && w == d * 0x10000000 + s
    ensures w < 0x100000000 && w / 0x10000000 == d && w * 16 % 0x100000000 == 16 * s
  {
  }

  // One shift: the top digit is the next digit of the text.
  lemma ShiftStep(v: nat, i: nat)
    requires v < 0x100000000 && i < 8
    ensures var w := Shifted(v, i);
            && w < 0x100000000
            && w / 0x10000000 == v / Pow16(7 - i) % 16
            && w * 16 % 0x100000000 == Shifted(v, i + 1)
    ensures v / Pow16(7 - i) / 16 == v / Pow16(8 - i)
  {
    var q, c := Pow16(7 - i), Pow16(i);
    SplitAt(v, q);
    ShiftDigit(v / q % 16, v % q, q, c);
  }
}
