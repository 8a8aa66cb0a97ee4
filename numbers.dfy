/**
 * Python's `int()` and `float()` as the scraper applies them to count texts, restricted to plain
 * decimal digit strings, and the renderings the listing page uses for counts (`1234`, `1,234`, `1.2`).
 */
module Numbers {
  import opened Wrappers
  import opened Text

  predicate IsDigit(c: char) {
    '0' <= c <= '9'
  }

  predicate AllDigits(s: string) {
    forall i :: 0 <= i < |s| ==> IsDigit(s[i])
  }

  function Pow10(n: nat): (p: nat)
    ensures p >= 1
  {
    if n == 0 then 1 else 10 * Pow10(n - 1)
  }

  lemma MulLe(a: nat, b: nat, p: nat)
    requires a <= b
    ensures a * p <= b * p
  {
  }

  lemma DivBounds(x: nat, p: nat)
    requires p >= 1
    ensures 0 <= x / p
    ensures (x / p) * p <= x < (x / p + 1) * p
  {
  }

  /** The quotient is the only number whose multiples bracket `x`. */
  lemma DivUnique(x: nat, p: nat, q: nat)
    requires p >= 1
    requires q * p <= x < (q + 1) * p
    ensures x / p == q
  {
    var t := x / p;
    DivBounds(x, p);
    MulLe(if t < q then t + 1 else if t > q then q + 1 else 0, if t < q then q else t, p);
  }

  lemma ShiftDigit(x: nat, p: nat, y: nat, d: int)
    ensures (x * p + y) * 10 + d == x * (p * 10) + (y * 10 + d)
  {
  }

  lemma ThreeDigits(m: nat)
    requires m < 1000
    ensures (m / 100 * 10 + m / 10 % 10) * 10 + m % 10 == m
  {
  }

  /** The value of a string of decimal digits, most significant digit first. */
  function DigitsValue(s: string): nat
    requires AllDigits(s)
  {
    if s == [] then 0 else DigitsValue(s[..|s| - 1]) * 10 + (s[|s| - 1] as int - '0' as int)
  }

  lemma {:induction false} DigitsValueAppend(a: string, b: string)
    requires AllDigits(a) && AllDigits(b)
    ensures AllDigits(a + b)
    ensures DigitsValue(a + b) == DigitsValue(a) * Pow10(|b|) + DigitsValue(b)
  {
    if b == [] {
      assert a + b == a;
    } else {
      var b' := b[..|b| - 1];
      assert (a + b)[..|a + b| - 1] == a + b';
      DigitsValueAppend(a, b');
      ShiftDigit(DigitsValue(a), Pow10(|b'|), DigitsValue(b'), b[|b| - 1] as int - '0' as int);
    }
  }

  /** Python `int(s)` on a string of decimal digits: the value when `s` is a non-empty digit string,
      and a `ValueError` (here `None`) otherwise. */
  function ParseInt(s: string): (r: Option<nat>)
    ensures r.Some? <==> s != [] && AllDigits(s)
  {
    if s != [] && AllDigits(s) then Some(DigitsValue(s)) else None
  }

  function DigitChar(d: nat): (c: char)
    requires d < 10
    ensures IsDigit(c) && c as int - '0' as int == d
  {
    ('0' as int + d) as char
  }

  /** `str(n)`: the decimal rendering without leading zeros, which `int()` reads back as `n`. */
  function ShowNat(n: nat): (s: string)
    ensures s != [] && AllDigits(s)
    ensures ParseInt(s) == Some(n)
    ensures |s| > 1 ==> s[0] != '0'
  {
    if n < 10 then
      var s := [DigitChar(n)];
      assert s[..0] == [];
      assert DigitsValue(s) == n;
      s
    else
      var s := ShowNat(n / 10) + [DigitChar(n % 10)];
      assert s[..|s| - 1] == ShowNat(n / 10);
      s
  }

  /** Three digits with leading zeros, for one group of a thousands-separated rendering. */
  function Pad3(m: nat): (s: string)
    requires m < 1000
    ensures |s| == 3 && AllDigits(s) && DigitsValue(s) == m
  {
    var s := [DigitChar(m / 100), DigitChar(m / 10 % 10), DigitChar(m % 10)];
    assert s[..2][..1][..0] == [];
    assert s[..2][..1] == [DigitChar(m / 100)];
    assert s[..2] == [DigitChar(m / 100), DigitChar(m / 10 % 10)];
    assert DigitsValue(s[..2][..1]) == m / 100;
    assert DigitsValue(s[..2]) == m / 100 * 10 + m / 10 % 10;
    ThreeDigits(m);
    s
  }

  /** A count as the listing page prints it, with a comma between groups of three digits (`12,345`). */
  function WithThousands(n: nat): string
  {
    if n < 1000 then ShowNat(n) else WithThousands(n / 1000) + "," + Pad3(n % 1000)
  }

  /** Removing the commas from a thousands-separated rendering leaves the digits of the same number. */
  lemma {:induction false} WithThousandsDigits(n: nat)
    ensures ParseInt(RemoveChar(WithThousands(n), ',')) == Some(n)
  {
    if n < 1000 {
      RemoveCharAbsent(ShowNat(n), ',');
    } else {
      var head, tail := WithThousands(n / 1000), Pad3(n % 1000);
      WithThousandsDigits(n / 1000);
      var digits := RemoveChar(head, ',');
      RemoveCommaGroup(head, tail);
      GroupValue(n, digits, tail);
    }
  }

  lemma RemoveCommaGroup(head: string, tail: string)
    requires AllDigits(tail)
    ensures RemoveChar(head + "," + tail, ',') == RemoveChar(head, ',') + tail
  {
    assert ',' !in tail by {
      forall i | 0 <= i < |tail| ensures tail[i] != ',' { assert IsDigit(tail[i]); }
    }
    RemoveCharAppend(head + ",", tail, ',');
    RemoveCharAppend(head, ",", ',');
    RemoveCharAbsent(tail, ',');
  }

  lemma GroupValue(n: nat, digits: string, tail: string)
    requires n >= 1000
    requires ParseInt(digits) == Some(n / 1000)
    requires |tail| == 3 && AllDigits(tail) && DigitsValue(tail) == n % 1000
    ensures ParseInt(digits + tail) == Some(n)
  {
    DigitsValueAppend(digits, tail);
    assert Pow10(3) == 1000;
    assert DigitsValue(digits + tail) == n / 1000 * 1000 + n % 1000;
  }

  /** An exact decimal number, `mantissa / 10^scale`. */
  datatype Decimal = Decimal(mantissa: nat, scale: nat)

  /** Python `float(s)` on a plain decimal literal: digits with at most one '.' and at least one
      digit (`"2"`, `"2.5"`, `".5"`, `"2."`); anything else is a `ValueError` (here `None`).
      The value is kept exact. */
  function ParseDecimal(s: string): (r: Option<Decimal>)
    ensures r.Some? ==> r.value.scale < |s|
  {
    var parts := Split(s, '.');
    if |parts| == 1 then
      if s != [] && AllDigits(s) then Some(Decimal(DigitsValue(s), 0)) else None
    else if |parts| == 2 && AllDigits(parts[0]) && AllDigits(parts[1]) && parts[0] + parts[1] != [] then
      assert Join(parts, '.') == parts[0] + ['.'] + parts[1];
      DigitsValueAppend(parts[0], parts[1]);
      Some(Decimal(DigitsValue(parts[0] + parts[1]), |parts[1]|))
    else None
  }

  /** A whole number reads back as itself. */
  lemma ParseDecimalWhole(n: nat)
    ensures ParseDecimal(ShowNat(n)) == Some(Decimal(n, 0))
  {
    ParseDecimalDigits(ShowNat(n));
  }

  /** Any non-empty digit string, leading zeros included (`"007"`), reads as its value at scale 0. */
  lemma ParseDecimalDigits(w: string)
    requires w != [] && AllDigits(w)
    ensures ParseDecimal(w) == Some(Decimal(DigitsValue(w), 0))
  {
    DigitsHaveNoDot(w);
    SplitNoSeparator(w, '.');
  }

  /** `w.frac` for any digit strings with at least one digit between them (`"2.5"`, `".5"`,
      `"007.5"`, `"2."`) reads as the number `w + frac / 10^|frac|`. */
  lemma ParseDecimalFraction(w: string, frac: string)
    requires AllDigits(w) && AllDigits(frac) && w + frac != []
    ensures ParseDecimal(w + "." + frac)
         == Some(Decimal(DigitsValue(w) * Pow10(|frac|) + DigitsValue(frac), |frac|))
  {
    var parts := Split(w + "." + frac, '.');
    DotSplit(w, frac);
    assert |parts| == 2 && parts[0] == w && parts[1] == frac;
    DigitsValueAppend(w, frac);
    var v := DigitsValue(w) * Pow10(|frac|) + DigitsValue(frac);
    assert DigitsValue(w + frac) == v;
    assert ParseDecimal(w + "." + frac) == Some(Decimal(v, |frac|));
  }

  lemma DotSplit(w: string, frac: string)
    requires AllDigits(w) && AllDigits(frac)
    ensures Split(w + "." + frac, '.') == [w, frac]
  {
    DigitsHaveNoDot(w);
    DigitsHaveNoDot(frac);
    SplitAfterPiece(w, '.', frac);
    SplitNoSeparator(frac, '.');
  }

  /** The texts `float()` accepts here: a non-empty digit string, or digit strings on either side
      of one '.' with at least one digit in all. */
  predicate DecimalLiteral(s: string) {
    (s != [] && AllDigits(s))
    || (exists i :: 0 <= i < |s| && s[i] == '.' && AllDigits(s[..i]) && AllDigits(s[i + 1..]) && |s| >= 2)
  }

  /** `float()` succeeds exactly on the decimal literals; everything else is a `ValueError`. */
  lemma ParseDecimalAccepts(s: string)
    ensures ParseDecimal(s).Some? <==> DecimalLiteral(s)
  {
    var parts := Split(s, '.');
    assert parts[0] in parts;
    if |parts| == 1 {
      assert s == parts[0];
    } else {
      assert parts[1] in parts;
      var d := |parts[0]|;
      assert s == parts[0] + ['.'] + Join(parts[1..], '.');
      assert s[d] == '.';
      if |parts| == 2 {
        assert Join(parts[1..], '.') == parts[1];
        assert s[..d] == parts[0] && s[d + 1..] == parts[1];
        forall i | 0 <= i < |s| && i != d ensures s[i] != '.' {
          if i < d { assert s[i] == parts[0][i]; } else { assert s[i] == parts[1][i - d - 1]; }
        }
      } else {
        assert Join(parts[1..], '.') == parts[1] + ['.'] + Join(parts[2..], '.');
        var e := d + 1 + |parts[1]|;
        assert s[e] == '.';
        TwoDots(s, d, e);
      }
    }
  }

  /** A text with two dots is no decimal literal. */
  lemma TwoDots(s: string, d: nat, e: nat)
    requires d < e < |s| && s[d] == '.' && s[e] == '.'
    ensures !DecimalLiteral(s)
  {
    assert !IsDigit(s[d]);
    forall i | 0 <= i < |s| && s[i] == '.'
      ensures !(AllDigits(s[..i]) && AllDigits(s[i + 1..]))
    {
      if i < e {
        assert s[i + 1..][e - i - 1] == '.';
      } else {
        assert s[..i][d] == '.';
      }
    }
  }

  lemma DigitsHaveNoDot(w: string)
    requires AllDigits(w)
    ensures '.' !in w
  {
    forall i | 0 <= i < |w| ensures w[i] != '.' {
      assert IsDigit(w[i]);
    }
  }

  /** `int(x * 1000)` on an exact decimal: the value times a thousand, truncated toward zero. */
  function Thousandths(d: Decimal): (r: nat)
    ensures r * Pow10(d.scale) <= d.mantissa * 1000 < (r + 1) * Pow10(d.scale)
  {
    var x: nat, p: nat := d.mantissa * 1000, Pow10(d.scale);
    DivBounds(x, p);
    x / p
  }

  /** With at most three decimals nothing is cut off: `2.5` gives exactly 2500. */
  lemma ThousandthsExact(m: nat, scale: nat)
    requires scale <= 3
    ensures Thousandths(Decimal(m, scale)) == m * Pow10(3 - scale)
  {
    var q, p := m * Pow10(3 - scale), Pow10(scale);
    assert Pow10(3 - scale) * p == 1000 by {
      assert Pow10(1) == 10 && Pow10(2) == 100 && Pow10(3) == 1000;
    }
    assert q * p == m * 1000;
    DivUnique(m * 1000, p, q);
  }
}
