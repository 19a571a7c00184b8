/** Powers of real numbers, and what the program computes for them. */
module RealPowers {

  function By(x: real, f: real): real {
    x * f
  }

  function Power(t: real, k: nat): real {
    if k == 0 then 1.0 else By(t, Power(t, k - 1))
  }

  lemma {:induction false} PowerNotZero(t: real, k: nat)
    requires t != 0.0
    ensures Power(t, k) != 0.0 && (t > 0.0 ==> Power(t, k) > 0.0)
  {
    if k > 0 {
      PowerNotZero(t, k - 1);
    }
  }

  // t to the power k.
  function Raised(t: real, k: int): (r: real)
    requires t != 0.0
    ensures r != 0.0 && (t > 0.0 ==> r > 0.0)
  {
    PowerNotZero(t, if k >= 0 then k else -k);
    if k >= 0 then Power(t, k) else Inverse(Power(t, -k))
  }

  function Inverse(x: real): (r: real)
    requires x != 0.0
    ensures r != 0.0 && (x > 0.0 ==> r > 0.0)
  {
    InverseNotZero(x);
    1.0 / x
  }

  lemma InverseNotZero(x: real)
    requires x != 0.0
    ensures 1.0 / x != 0.0 && (x > 0.0 ==> 1.0 / x > 0.0)
  {
    assert 1.0 / x * x == 1.0;
  }

  // What std::pow stands for on exact numbers: r is the power of t to num / den. A negative number has no such
  // power for a fraction.
  ghost predicate IsRealPower(t: real, num: int, den: int, r: real) {
    t > 0.0 && r > 0.0 && Raised(r, den) == Raised(t, num)
  }

  // What the power of t to num / den may be, with the cases that are written out. For the quotient 4 a reference to
  // a local variable is returned, and there may be anything there.
  ghost predicate MayBePower(t: real, num: int, den: int, r: real)
    requires t != 0.0 && den != 0
  {
    if num % den != 0 then IsRealPower(t, num, den, r)
    else
      var k := num / den;
      if k == 1 then r == t
      else if k == 2 then r == t * t
      else if k == 3 then r == t * t * t
      else if k == 4 then r != 0.0
      else if k == -1 then r == 1.0 / t
      else if k == -2 then
        NotZeroSquare(t);
        r == 1.0 / (t * t)
      else if k == 0 then r == 1.0
      else r == Raised(t, k)
  }

  lemma NotZeroSquare(t: real)
    requires t != 0.0
    ensures t * t != 0.0
  {
  }

  lemma PowerSmall(t: real)
    ensures Power(t, 0) == 1.0 && Power(t, 1) == t && Power(t, 2) == t * t
    ensures Power(t, 3) == t * t * t
  {
    assert Power(t, 1) == t * Power(t, 0);
    assert Power(t, 2) == t * Power(t, 1);
    assert Power(t, 3) == t * Power(t, 2) == t * (t * t);
  }

  lemma WholePower(t: real, num: int, den: int, r: real)
    requires t != 0.0 && den != 0 && num % den == 0
    ensures num / den != 4 ==> (MayBePower(t, num, den, r) <==> r == Raised(t, num / den))
    ensures num / den == 4 ==> (MayBePower(t, num, den, r) <==> r != 0.0)
  {
    PowerSmall(t);
  }

  // For a whole exponent the result is the power and nothing else exactly if the exponent is not 4.
  lemma FixedPowerIsPower(t: real, num: int, den: int)
    requires t != 0.0 && den != 0 && num % den == 0
    ensures (forall r :: MayBePower(t, num, den, r) <==> r == Raised(t, num / den)) <==> num / den != 4
  {
    forall r
      ensures num / den != 4 ==> (MayBePower(t, num, den, r) <==> r == Raised(t, num / den))
    {
      WholePower(t, num, den, r);
    }
    if num / den == 4 {
      WholePower(t, num, den, 1.0);
      WholePower(t, num, den, 2.0);
    }
  }

  // ---------- powers tell numbers apart ----------

  lemma MulLess(a: real, b: real, c: real, d: real)
    requires 0.0 < a < b && 0.0 < c <= d
    ensures By(a, c) < By(b, d)
  {
    assert a * c < b * c;
    assert b * c <= b * d;
  }

  lemma {:induction false} PowerGrows(x: real, y: real, k: nat)
    requires 0.0 < x < y && k > 0
    ensures Power(x, k) < Power(y, k)
  {
    PowerNotZero(x, k - 1);
    if k > 1 {
      PowerGrows(x, y, k - 1);
    }
    MulLess(x, y, Power(x, k - 1), Power(y, k - 1));
  }

  lemma InverseDiffers(x: real, y: real)
    requires x != 0.0 && y != 0.0 && Inverse(x) == Inverse(y)
    ensures x == y
  {
    assert 1.0 / x * x == 1.0 && 1.0 / y * y == 1.0;
    assert 1.0 / x * (x - y) == 0.0;
  }

  lemma RaisedDiffers(x: real, y: real, k: int)
    requires x > 0.0 && y > 0.0 && k != 0 && Raised(x, k) == Raised(y, k)
    ensures x == y
  {
    var n: nat := if k > 0 then k else -k;
    PowerNotZero(x, n);
    PowerNotZero(y, n);
    if k < 0 {
      InverseDiffers(Power(x, n), Power(y, n));
    }
    if x < y {
      PowerGrows(x, y, n);
    } else if y < x {
      PowerGrows(y, x, n);
    }
  }

  function Abs(x: real): (r: real)
    ensures x != 0.0 ==> r > 0.0
  {
    if x < 0.0 then -x else x
  }

  lemma {:induction false} PowerOfAbs(x: real, k: nat)
    requires x != 0.0
    ensures Abs(Power(x, k)) == Power(Abs(x), k)
  {
    if k > 0 {
      PowerOfAbs(x, k - 1);
      AbsOfProduct(x, Power(x, k - 1));
    }
  }

  lemma AbsOfProduct(x: real, y: real)
    ensures Abs(By(x, y)) == By(Abs(x), Abs(y))
  {
  }

  lemma AbsOfInverse(x: real)
    requires x != 0.0
    ensures Abs(Inverse(x)) == Inverse(Abs(x))
  {
    var r := 1.0 / x;
    assert r * x == 1.0;
    if x < 0.0 {
      assert (-r) * (-x) == 1.0;
      DivisionIs(1.0, -x, -r);
    }
  }

  lemma DivisionIs(p: real, x: real, q: real)
    requires x != 0.0 && q * x == p
    ensures p / x == q
  {
  }

  lemma RaisedOfAbs(x: real, k: int)
    requires x != 0.0
    ensures Abs(Raised(x, k)) == Raised(Abs(x), k)
  {
    var n: nat := if k >= 0 then k else -k;
    PowerNotZero(x, n);
    PowerNotZero(Abs(x), n);
    PowerOfAbs(x, n);
    if k < 0 {
      AbsOfInverse(Power(x, n));
    }
  }
}
