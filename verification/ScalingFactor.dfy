/** The scaling factors of units, some of which are read from storage that is no longer there. */
module ScalingFactors {
  import opened RealPowers
  import opened Units

  // Fractions that can be divided by.
  predicate IsSolid(u: Unit) {
    match u
    case Base(_) => true
    case Compose(a, b) => IsSolid(a) && IsSolid(b)
    case Scale(a, num, den) => IsSolid(a) && num != 0 && den != 0
    case Translate(a, _, den) => IsSolid(a) && den != 0
    case Pow(a, _, den) => IsSolid(a) && den != 0
  }

  lemma {:induction false} SolidIsProper(u: Unit)
    requires IsSolid(u)
    ensures IsProper(u)
  {
    match u
    case Base(_) =>
    case Scale(a, _, _) => SolidIsProper(a);
    case Translate(a, _, _) => SolidIsProper(a);
    case Pow(a, _, _) => SolidIsProper(a);
    case Compose(a, b) =>
      SolidIsProper(a);
      SolidIsProper(b);
  }

  // What the values of a unit may be multiplied by, in relation to its base units.
  ghost predicate MayBeFactor(u: Unit, f: real)
    requires IsSolid(u)
  {
    match u
    case Base(_) => f == 1.0
    case Compose(a, b) => exists x, y :: MayBeFactor(a, x) && MayBeFactor(b, y) && f == By(x, y)
    case Scale(a, num, den) => exists x :: MayBeFactor(a, x) && f == Times(x, num, den)
    case Pow(a, num, den) => exists x :: MayBeFactor(a, x) && x != 0.0 && MayBePower(x, num, den, f)
    case Translate(a, _, _) => MayBeFactor(a, f)
  }

  // Whether the scaling factor comes from storage that is no longer there.
  predicate IsStale(u: Unit)
    requires IsSolid(u)
  {
    match u
    case Base(_) => false
    case Compose(a, b) => IsStale(a) || IsStale(b)
    case Scale(a, _, _) => IsStale(a)
    case Translate(a, _, _) => IsStale(a)
    case Pow(a, num, den) =>
      if num % den == 0 && num / den == 4 then true
      else if num == 0 then false
      else IsStale(a)
  }

  lemma FactorsNotZero(x: real, y: real)
    requires x != 0.0 && y != 0.0
    ensures By(x, y) != 0.0 && (x > 0.0 && y > 0.0 ==> By(x, y) > 0.0)
  {
  }

  lemma FractionNotZero(x: real, num: int, den: int)
    requires x != 0.0 && num != 0 && den != 0
    ensures Times(x, num, den) != 0.0
  {
    FactorsNotZero(x, num as real);
    assert Times(x, num, den) * den as real == x * num as real;
  }

  lemma PowerIsNotZero(t: real, num: int, den: int, r: real)
    requires t != 0.0 && den != 0 && MayBePower(t, num, den, r)
    ensures r != 0.0
  {
    if num % den == 0 {
      WholePower(t, num, den, r);
    }
  }

  lemma {:induction false} FactorNotZero(u: Unit, f: real)
    requires IsSolid(u) && MayBeFactor(u, f)
    ensures f != 0.0
  {
    match u
    case Base(_) =>
    case Compose(a, b) =>
      var x, y :| MayBeFactor(a, x) && MayBeFactor(b, y) && f == By(x, y);
      FactorNotZero(a, x);
      FactorNotZero(b, y);
      FactorsNotZero(x, y);
    case Scale(a, num, den) =>
      var x :| MayBeFactor(a, x) && f == Times(x, num, den);
      FactorNotZero(a, x);
      FractionNotZero(x, num, den);
    case Pow(a, num, den) =>
      var x :| MayBeFactor(a, x) && x != 0.0 && MayBePower(x, num, den, f);
      PowerIsNotZero(x, num, den, f);
    case Translate(a, _, _) =>
      FactorNotZero(a, f);
  }

  lemma PowerIsUnique(t: real, num: int, den: int, r: real, s: real)
    requires t != 0.0 && den != 0 && MayBePower(t, num, den, r) && MayBePower(t, num, den, s)
    requires num % den != 0 || num / den != 4
    ensures r == s
  {
    if num % den == 0 {
      WholePower(t, num, den, r);
      WholePower(t, num, den, s);
    } else {
      RaisedDiffers(r, s, den);
    }
  }

  lemma ZerothPower(t: real, den: int, r: real)
    requires t != 0.0 && den != 0 && MayBePower(t, 0, den, r)
    ensures r == 1.0
  {
    assert 0 / den == 0 && 0 % den == 0;
  }

  // A unit that is not stale has one scaling factor.
  lemma {:induction false} FactorIsUnique(u: Unit, f: real, g: real)
    requires IsSolid(u) && !IsStale(u) && MayBeFactor(u, f) && MayBeFactor(u, g)
    ensures f == g
  {
    match u
    case Base(_) =>
    case Compose(a, b) =>
      var x, y :| MayBeFactor(a, x) && MayBeFactor(b, y) && f == By(x, y);
      var x', y' :| MayBeFactor(a, x') && MayBeFactor(b, y') && g == By(x', y');
      FactorIsUnique(a, x, x');
      FactorIsUnique(b, y, y');
    case Scale(a, num, den) =>
      var x :| MayBeFactor(a, x) && f == Times(x, num, den);
      var x' :| MayBeFactor(a, x') && g == Times(x', num, den);
      FactorIsUnique(a, x, x');
    case Pow(a, num, den) =>
      var x :| MayBeFactor(a, x) && x != 0.0 && MayBePower(x, num, den, f);
      var x' :| MayBeFactor(a, x') && x' != 0.0 && MayBePower(x', num, den, g);
      if num == 0 {
        ZerothPower(x, den, f);
        ZerothPower(x', den, g);
      } else {
        FactorIsUnique(a, x, x');
        PowerIsUnique(x, num, den, f, g);
      }
    case Translate(a, _, _) =>
      FactorIsUnique(a, f, g);
  }

  // ---------- stale factors ----------

  // On exact numbers every positive number has every real power.
  ghost predicate HasPower(t: real, num: int, den: int) {
    exists r :: IsRealPower(t, num, den, r)
  }

  ghost predicate PowersExist() {
    forall t, num, den :: t > 0.0 && den != 0 ==> HasPower(t, num, den)
  }

  // No factor in the unit is negative.
  predicate IsPositive(u: Unit) {
    match u
    case Base(_) => true
    case Compose(a, b) => IsPositive(a) && IsPositive(b)
    case Scale(a, num, den) => IsPositive(a) && ((num > 0 && den > 0) || (num < 0 && den < 0))
    case Translate(a, _, _) => IsPositive(a)
    case Pow(a, _, _) => IsPositive(a)
  }

  // Fractional powers are taken of positive factors only.
  predicate IsRegular(u: Unit)
    requires IsSolid(u)
  {
    match u
    case Base(_) => true
    case Compose(a, b) => IsRegular(a) && IsRegular(b)
    case Scale(a, _, _) => IsRegular(a)
    case Translate(a, _, _) => IsRegular(a)
    case Pow(a, num, den) => IsRegular(a) && (num % den == 0 || IsPositive(a))
  }

  predicate IsWhole(u: Unit)
    requires IsSolid(u)
  {
    match u
    case Base(_) => true
    case Compose(a, b) => IsWhole(a) && IsWhole(b)
    case Scale(a, _, _) => IsWhole(a)
    case Translate(a, _, _) => IsWhole(a)
    case Pow(a, num, den) => IsWhole(a) && num % den == 0
  }

  // There is a factor: for whole exponents always, for others if the powers exist and are taken of positive numbers.
  ghost predicate HasFactor(u: Unit) {
    IsSolid(u) && (IsWhole(u) || (IsRegular(u) && PowersExist()))
  }

  // f may be a factor, of the right sign.
  ghost predicate IsUsual(u: Unit, f: real)
    requires IsSolid(u)
  {
    f != 0.0 && MayBeFactor(u, f) && (IsPositive(u) ==> f > 0.0)
  }

  lemma FractionPositive(x: real, num: int, den: int)
    requires x > 0.0 && ((num > 0 && den > 0) || (num < 0 && den < 0))
    ensures Times(x, num, den) > 0.0
  {
    var y := Times(x, num, den);
    assert y * den as real == x * num as real;
    if num > 0 {
      assert x * num as real > 0.0;
    } else {
      assert x * num as real < 0.0;
    }
  }

  lemma UsualScale(a: Unit, num: int, den: int, x: real)
    requires IsSolid(Scale(a, num, den)) && IsUsual(a, x)
    ensures IsUsual(Scale(a, num, den), Times(x, num, den))
  {
    FractionNotZero(x, num, den);
    if IsPositive(Scale(a, num, den)) {
      FractionPositive(x, num, den);
    }
  }

  lemma UsualCompose(a: Unit, b: Unit, x: real, y: real)
    requires IsSolid(Compose(a, b)) && IsUsual(a, x) && IsUsual(b, y)
    ensures IsUsual(Compose(a, b), By(x, y))
  {
    FactorsNotZero(x, y);
  }

  // The power of a factor: for a fraction, the real power.
  lemma UsualPower(a: Unit, num: int, den: int, x: real) returns (f: real)
    requires HasFactor(Pow(a, num, den)) && IsUsual(a, x)
    ensures IsUsual(Pow(a, num, den), f)
    ensures num % den == 0 ==> f == Raised(x, num / den)
    ensures num % den != 0 ==> IsRealPower(x, num, den, f)
  {
    if num % den == 0 {
      f := Raised(x, num / den);
      WholePower(x, num, den, f);
    } else {
      assert HasPower(x, num, den);
      f :| IsRealPower(x, num, den, f);
    }
    assert MayBePower(x, num, den, f);
  }

  lemma {:induction false} FactorExists(u: Unit) returns (f: real)
    requires HasFactor(u)
    ensures IsUsual(u, f)
  {
    match u
    case Base(_) => f := 1.0;
    case Compose(a, b) =>
      var x := FactorExists(a);
      var y := FactorExists(b);
      UsualCompose(a, b, x, y);
      f := By(x, y);
    case Scale(a, num, den) =>
      var x := FactorExists(a);
      UsualScale(a, num, den, x);
      f := Times(x, num, den);
    case Pow(a, num, den) =>
      var x := FactorExists(a);
      f := UsualPower(a, num, den, x);
    case Translate(a, _, _) =>
      f := FactorExists(a);
  }

  lemma AbsDiffersBy(x: real, x': real, y: real)
    requires Abs(x) != Abs(x') && y != 0.0
    ensures Abs(By(x, y)) != Abs(By(x', y)) && Abs(By(y, x)) != Abs(By(y, x'))
  {
    AbsOfProduct(x, y);
    AbsOfProduct(x', y);
    var d := Abs(x) - Abs(x');
    assert d * Abs(y) != 0.0;
    assert Abs(x) * Abs(y) - Abs(x') * Abs(y) == d * Abs(y);
    assert By(y, x) == By(x, y) && By(y, x') == By(x', y);
  }

  lemma AbsDiffersTimes(x: real, x': real, num: int, den: int)
    requires Abs(x) != Abs(x') && num != 0 && den != 0
    ensures Abs(Times(x, num, den)) != Abs(Times(x', num, den))
  {
    var q := num as real / den as real;
    DivisionIs(num as real, den as real, q);
    assert q * den as real == num as real;
    assert q != 0.0;
    DivisionIs(x * num as real, den as real, By(x, q));
    DivisionIs(x' * num as real, den as real, By(x', q));
    AbsDiffersBy(x, x', q);
  }

  lemma AbsDiffersPower(x: real, x': real, num: int, den: int, f: real, f': real)
    requires x != 0.0 && x' != 0.0 && Abs(x) != Abs(x') && num != 0 && den != 0
    requires if num % den == 0 then f == Raised(x, num / den) && f' == Raised(x', num / den)
             else IsRealPower(x, num, den, f) && IsRealPower(x', num, den, f')
    ensures Abs(f) != Abs(f')
  {
    if num % den == 0 {
      RaisedOfAbs(x, num / den);
      RaisedOfAbs(x', num / den);
      if Abs(f) == Abs(f') {
        assert num / den != 0;
        RaisedDiffers(Abs(x), Abs(x'), num / den);
      }
    } else if f == f' {
      RaisedDiffers(x, x', num);
    }
  }

  // A stale unit may have factors of different size.
  lemma {:induction false} FactorsDiffer(u: Unit) returns (f: real, f': real)
    requires HasFactor(u) && IsStale(u)
    ensures IsUsual(u, f) && IsUsual(u, f') && Abs(f) != Abs(f')
  {
    match u
    case Compose(a, b) =>
      if IsStale(a) {
        var x, x' := FactorsDiffer(a);
        var y := FactorExists(b);
        UsualCompose(a, b, x, y);
        UsualCompose(a, b, x', y);
        AbsDiffersBy(x, x', y);
        f, f' := By(x, y), By(x', y);
      } else {
        var x := FactorExists(a);
        var y, y' := FactorsDiffer(b);
        UsualCompose(a, b, x, y);
        UsualCompose(a, b, x, y');
        AbsDiffersBy(y, y', x);
        f, f' := By(x, y), By(x, y');
      }
    case Scale(a, num, den) =>
      var x, x' := FactorsDiffer(a);
      UsualScale(a, num, den, x);
      UsualScale(a, num, den, x');
      AbsDiffersTimes(x, x', num, den);
      f, f' := Times(x, num, den), Times(x', num, den);
    case Pow(a, num, den) =>
      if num % den == 0 && num / den == 4 {
        var x := FactorExists(a);
        f, f' := 1.0, 2.0;
        assert MayBePower(x, num, den, f) && MayBePower(x, num, den, f');
      } else {
        var x, x' := FactorsDiffer(a);
        f := UsualPower(a, num, den, x);
        f' := UsualPower(a, num, den, x');
        AbsDiffersPower(x, x', num, den, f, f');
      }
    case Translate(a, _, _) =>
      f, f' := FactorsDiffer(a);
  }
}
