/** What a conversion does to a value, in terms of the scaling factors of the two units. */
module ConversionLaws {
  import opened Conversions
  import opened RealPowers
  import opened ScalingFactors
  import opened Units

  // ---------- the factor of a unit and of its core ----------

  lemma {:induction false} CoreFactor(u: Unit, h: real) returns (f: real)
    requires IsSolid(u) && MayBeFactor(u, h)
    ensures MayBeFactor(Core(u), f)
  {
    match u
    case Scale(a, num, den) =>
      var x :| MayBeFactor(a, x) && h == Times(x, num, den);
      f := CoreFactor(a, x);
    case Translate(a, _, _) =>
      f := CoreFactor(a, h);
    case _ =>
      f := h;
  }

  lemma ScaleBack(d: real, x: real, v: real, v': real, f: real, num: int, den: int)
    requires num != 0 && den != 0
    requires By(d, x) == By(Times(v, den, num) - Times(v', den, num), f)
    ensures By(d, Times(x, num, den)) == By(v - v', f)
  {
    var n, m := num as real, den as real;
    var p, p', y := v * m / n, v' * m / n, x * n / m;
    assert p * n == v * m && p' * n == v' * m && y * m == x * n;
    assert d * y * m == d * x * n == (p - p') * f * n;
    assert (p - p') * f * n == (p * n - p' * n) * f == (v - v') * m * f;
    Cancel(d * y, (v - v') * f, m);
  }

  lemma Cancel(x: real, y: real, m: real)
    requires m != 0.0 && x * m == y * m
    ensures x == y
  {
  }

  // On the way down to the core, differences shrink as the scaling factors tell.
  lemma {:induction false} ToCoreScales(u: Unit, v: real, v': real, h: real, f: real)
    requires IsSolid(u) && !IsStale(u) && MayBeFactor(u, h) && MayBeFactor(Core(u), f)
    ensures By(ToCore(u, v) - ToCore(u, v'), h) == By(v - v', f)
  {
    match u
    case Scale(a, num, den) =>
      var x :| MayBeFactor(a, x) && h == Times(x, num, den);
      var p, p' := Times(v, den, num), Times(v', den, num);
      ToCoreScales(a, p, p', x, f);
      ScaleBack(ToCore(a, p) - ToCore(a, p'), x, v, v', f, num, den);
    case Translate(a, num, den) =>
      ToCoreScales(a, v - Quotient(num, den), v' - Quotient(num, den), h, f);
    case _ =>
      FactorIsUnique(u, h, f);
  }

  // Whether the zero of the unit is not that of its core.
  predicate IsOffset(u: Unit) {
    match u
    case Scale(a, _, _) => IsOffset(a)
    case Translate(a, num, _) => num != 0 || IsOffset(a)
    case _ => false
  }

  lemma {:induction false} ZeroStays(u: Unit)
    requires IsSolid(u) && !IsOffset(u)
    ensures ToCore(u, 0.0) == 0.0
  {
    match u
    case Scale(a, num, den) =>
      assert Times(0.0, den, num) == 0.0;
      ZeroStays(a);
    case Translate(a, _, _) => ZeroStays(a);
    case _ =>
  }

  // ---------- conversion is multiplication by the ratio of the scaling factors ----------

  lemma OverBack(x: real, f: real, g: real)
    requires f != 0.0
    ensures By(Over(By(x, g), f), f) == By(x, g)
  {
    assert x * g / f * f == x * g;
  }

  lemma BetweenCores(u1: Unit, u2: Unit, v: real, w: real, f: real, g: real)
    requires IsSolid(u1) && IsSolid(u2) && !IsStale(u1) && !IsStale(u2) && MayConvert(u1, u2, v, w)
    requires MayBeFactor(Core(u1), f) && MayBeFactor(Core(u2), g)
    ensures By(ToCore(u2, w), f) == By(ToCore(u1, v), g)
  {
    var f', g' := MayConvertIs(u1, u2, v, w);
    var x := ToCore(u1, v);
    CoreInverse(u2, Between(u1, u2, x, f', g'));
    if Core(u1) == Core(u2) {
      CoreFactorIsUnique(u1, f, g);
    } else {
      CoreFactorIsUnique(u1, f, f');
      CoreFactorIsUnique(u2, g, g');
      OverBack(x, f, g);
    }
  }

  lemma MoveFactors(a: real, g: real, b: real, k: real, c: real, f: real)
    requires g != 0.0 && a * g == b * k && b * f == c * g
    ensures a * f == c * k
  {
    assert a * f * g == b * k * f == c * g * k;
    Cancel(a * f, c * k, g);
  }

  lemma Ratio(dx: real, dy: real, dv: real, dw: real, f: real, g: real, h: real, k: real)
    requires f != 0.0 && g != 0.0 && h != 0.0
    requires By(dy, f) == By(dx, g) && By(dx, h) == By(dv, f) && By(dy, k) == By(dw, g)
    ensures dw == Over(By(dv, k), h)
  {
    MoveFactors(dw, g, dy, k, dx, f);
    MoveFactors(dw, f, dx, k, dv, h);
    DivisionIs(dv * k, h, dw);
  }

  lemma Subtracted(y: real, y': real, dy: real, f: real, x: real, x': real, dx: real, g: real)
    requires By(y, f) == By(x, g) && By(y', f) == By(x', g) && dy == y - y' && dx == x - x'
    ensures By(dy, f) == By(dx, g)
  {
    assert dy * f == y * f - y' * f;
    assert dx * g == x * g - x' * g;
  }

  lemma DifferenceBetween(u1: Unit, u2: Unit, v: real, w: real, v': real, w': real, dx: real, dy: real,
                          f: real, g: real)
    requires IsSolid(u1) && IsSolid(u2) && !IsStale(u1) && !IsStale(u2)
    requires MayConvert(u1, u2, v, w) && MayConvert(u1, u2, v', w')
    requires MayBeFactor(Core(u1), f) && MayBeFactor(Core(u2), g)
    requires dx == ToCore(u1, v) - ToCore(u1, v') && dy == ToCore(u2, w) - ToCore(u2, w')
    ensures By(dy, f) == By(dx, g)
  {
    BetweenCores(u1, u2, v, w, f, g);
    BetweenCores(u1, u2, v', w', f, g);
    Subtracted(ToCore(u2, w), ToCore(u2, w'), dy, f, ToCore(u1, v), ToCore(u1, v'), dx, g);
  }

  lemma DifferenceToCore(u: Unit, v: real, v': real, d: real, h: real, f: real) returns (dx: real)
    requires IsSolid(u) && !IsStale(u) && MayBeFactor(u, h) && MayBeFactor(Core(u), f) && d == v - v'
    ensures dx == ToCore(u, v) - ToCore(u, v') && By(dx, h) == By(d, f)
  {
    ToCoreScales(u, v, v', h, f);
    dx := ToCore(u, v) - ToCore(u, v');
  }

  lemma DifferenceIs(u1: Unit, u2: Unit, v: real, w: real, v': real, w': real, d: real, e: real, h: real, k: real)
    requires IsSolid(u1) && IsSolid(u2) && !IsStale(u1) && !IsStale(u2)
    requires MayBeFactor(u1, h) && MayBeFactor(u2, k) && h != 0.0
    requires MayConvert(u1, u2, v, w) && MayConvert(u1, u2, v', w') && d == v - v' && e == w - w'
    ensures e == Over(By(d, k), h)
  {
    var f := CoreFactor(u1, h);
    var g := CoreFactor(u2, k);
    FactorNotZero(Core(u1), f);
    FactorNotZero(Core(u2), g);
    var dx := DifferenceToCore(u1, v, v', d, h, f);
    var dy := DifferenceToCore(u2, w, w', e, k, g);
    DifferenceBetween(u1, u2, v, w, v', w', dx, dy, f, g);
    Ratio(dx, dy, d, e, f, g, h, k);
  }

  // Differences are multiplied by the ratio of the scaling factors, wherever the zeros of the units are.
  lemma DifferencesScale(u1: Unit, u2: Unit, v: real, w: real, v': real, w': real, h: real, k: real)
    requires IsSolid(u1) && IsSolid(u2) && !IsStale(u1) && !IsStale(u2)
    requires MayBeFactor(u1, h) && MayBeFactor(u2, k)
    requires MayConvert(u1, u2, v, w) && MayConvert(u1, u2, v', w')
    ensures h != 0.0 && w - w' == Over(By(v - v', k), h)
  {
    FactorNotZero(u1, h);
    DifferenceIs(u1, u2, v, w, v', w', v - v', w - w', h, k);
  }

  // Without offsets, a conversion gives the value times the ratio of the scaling factors and nothing else.
  lemma ConvertIsRatio(u1: Unit, u2: Unit, v: real, w: real, h: real, k: real)
    requires IsSolid(u1) && IsSolid(u2) && !IsStale(u1) && !IsStale(u2) && !IsOffset(u1) && !IsOffset(u2)
    requires MayBeFactor(u1, h) && MayBeFactor(u2, k)
    ensures h != 0.0 && (MayConvert(u1, u2, v, w) <==> w == v * k / h)
  {
    FactorNotZero(u1, h);
    var x := RatioComesOut(u1, u2, v, h, k);
    if MayConvert(u1, u2, v, w) {
      IsRatio(u1, u2, v, w, h, k);
    }
  }

  lemma ZeroIsZero(u1: Unit, u2: Unit, h: real, k: real)
    requires IsSolid(u1) && IsSolid(u2) && !IsOffset(u1) && !IsOffset(u2)
    requires MayBeFactor(u1, h) && MayBeFactor(u2, k)
    ensures MayConvert(u1, u2, 0.0, 0.0)
  {
    var f := CoreFactor(u1, h);
    var g := CoreFactor(u2, k);
    FactorNotZero(Core(u1), f);
    FactorNotZero(Core(u2), g);
    ZeroStays(u1);
    ZeroStays(u2);
    CoreInverse(u1, 0.0);
    CoreInverse(u2, 0.0);
    WithFactors(u1, u2, 0.0, f, g);
    assert Over(By(0.0, g), f) == 0.0;
  }

  lemma IsRatio(u1: Unit, u2: Unit, v: real, w: real, h: real, k: real)
    requires IsSolid(u1) && IsSolid(u2) && !IsStale(u1) && !IsStale(u2) && !IsOffset(u1) && !IsOffset(u2)
    requires MayBeFactor(u1, h) && MayBeFactor(u2, k) && h != 0.0 && MayConvert(u1, u2, v, w)
    ensures w == v * k / h
  {
    ZeroIsZero(u1, u2, h, k);
    DifferenceIs(u1, u2, v, w, 0.0, 0.0, v, w, h, k);
  }

  lemma RatioComesOut(u1: Unit, u2: Unit, v: real, h: real, k: real) returns (w: real)
    requires IsSolid(u1) && IsSolid(u2) && !IsStale(u1) && !IsStale(u2) && !IsOffset(u1) && !IsOffset(u2)
    requires MayBeFactor(u1, h) && MayBeFactor(u2, k) && h != 0.0
    ensures MayConvert(u1, u2, v, w) && w == v * k / h
  {
    var f := CoreFactor(u1, h);
    var g := CoreFactor(u2, k);
    FactorNotZero(Core(u1), f);
    FactorNotZero(Core(u2), g);
    CoreInverse(u1, v);
    WithFactors(u1, u2, ToCore(u1, v), f, g);
    w := FromCore(u2, Between(u1, u2, ToCore(u1, v), f, g));
    IsRatio(u1, u2, v, w, h, k);
  }

  lemma LayerConverts(u: Unit, a: Unit, v: real)
    requires IsSolid(u) && ((u.Scale? && u.unit == a) || (u.Translate? && u.unit == a))
    ensures Convert(u, a, v, 1.0, 1.0) == FromCore(a, ToCore(u, v))
    ensures Convert(a, u, v, 1.0, 1.0) == FromCore(u, ToCore(a, v))
    ensures FromCore(a, ToCore(a, v)) == v
  {
    ConvertIsThroughBase(u, a, v, 1.0, 1.0);
    ConvertIsThroughBase(a, u, v, 1.0, 1.0);
    CoreInverse(a, v);
  }

  // One layer at a time, whatever is below it.
  lemma ScaledConverts(a: Unit, num: int, den: int, v: real, w: real)
    requires IsSolid(Scale(a, num, den))
    ensures MayConvert(Scale(a, num, den), a, v, w) <==> w == v * den as real / num as real
    ensures MayConvert(a, Scale(a, num, den), v, w) <==> w == v * num as real / den as real
  {
    LayerConverts(Scale(a, num, den), a, v);
    CoreInverse(a, Times(v, den, num));
  }

  lemma TranslatedConverts(a: Unit, num: int, den: int, v: real, w: real)
    requires IsSolid(Translate(a, num, den))
    ensures MayConvert(Translate(a, num, den), a, v, w) <==> w == v - num as real / den as real
    ensures MayConvert(a, Translate(a, num, den), v, w) <==> w == v + num as real / den as real
  {
    LayerConverts(Translate(a, num, den), a, v);
    CoreInverse(a, v - Quotient(num, den));
  }

  // ---------- where scaling is written does not matter ----------

  lemma SameFactorSameValue(u1: Unit, u2: Unit, v: real, w: real, h: real)
    requires IsSolid(u1) && IsSolid(u2) && !IsStale(u1) && !IsStale(u2) && !IsOffset(u1) && !IsOffset(u2)
    requires MayBeFactor(u1, h) && MayBeFactor(u2, h)
    ensures MayConvert(u1, u2, v, w) <==> w == v
  {
    FactorNotZero(u1, h);
    DivisionIs(v * h, h, v);
    ConvertIsRatio(u1, u2, v, w, h, h);
  }

  // A scaled unit in a product, and the scaled product.
  lemma ScaleMovesOut(a: Unit, b: Unit, num: int, den: int, v: real, w: real)
    requires HasFactor(a) && HasFactor(b) && !IsStale(a) && !IsStale(b) && num != 0 && den != 0
    ensures MayConvert(Compose(Scale(a, num, den), b), Scale(Compose(a, b), num, den), v, w) <==> w == v
    ensures MayConvert(Compose(b, Scale(a, num, den)), Scale(Compose(b, a), num, den), v, w) <==> w == v
  {
    var x := FactorExists(a);
    var y := FactorExists(b);
    var z := Times(x, num, den);
    TimesCommutes(x, y, num, den);
    assert MayBeFactor(Compose(a, b), By(x, y)) && MayBeFactor(Compose(b, a), By(y, x));
    assert MayBeFactor(Scale(a, num, den), z);
    assert MayBeFactor(Compose(Scale(a, num, den), b), By(z, y));
    assert MayBeFactor(Compose(b, Scale(a, num, den)), By(y, z));
    SameFactorSameValue(Compose(Scale(a, num, den), b), Scale(Compose(a, b), num, den), v, w, By(z, y));
    SameFactorSameValue(Compose(b, Scale(a, num, den)), Scale(Compose(b, a), num, den), v, w, By(y, z));
  }

  lemma TimesCommutes(x: real, y: real, num: int, den: int)
    requires den != 0
    ensures By(Times(x, num, den), y) == Times(By(x, y), num, den)
    ensures By(y, Times(x, num, den)) == Times(By(y, x), num, den)
  {
    var z := Times(x, num, den);
    assert z * den as real == x * num as real;
    assert z * y * den as real == x * y * num as real;
    DivisionIs(x * y * num as real, den as real, z * y);
  }

  // ---------- powers ----------

  // k times the unit, as a product.
  function Product(a: Unit, k: nat): Unit
    requires k > 0
  {
    if k == 1 then a else Compose(a, Product(a, k - 1))
  }

  lemma {:induction false} ProductFactor(a: Unit, k: nat, x: real)
    requires k > 0 && IsSolid(a) && !IsStale(a) && MayBeFactor(a, x)
    ensures IsSolid(Product(a, k)) && !IsStale(Product(a, k)) && MayBeFactor(Product(a, k), Power(x, k))
  {
    if k == 1 {
      PowerSmall(x);
    } else {
      ProductFactor(a, k - 1, x);
    }
  }

  // A power is a repeated product.
  lemma PowerIsProduct(a: Unit, k: nat, v: real, w: real)
    requires HasFactor(a) && !IsStale(a) && !IsOffset(a) && k > 0 && k != 4
    ensures IsSolid(Product(a, k))
    ensures MayConvert(Pow(a, k, 1), Product(a, k), v, w) <==> w == v
  {
    var x := FactorExists(a);
    ProductFactor(a, k, x);
    PowerFactor(a, k, x);
    SameFactorSameValue(Pow(a, k, 1), Product(a, k), v, w, Power(x, k));
  }

  // A power and the opposite power cancel out.
  lemma PowersCancel(a: Unit, k: int, b: Unit, v: real, w: real)
    requires HasFactor(a) && HasFactor(b) && !IsStale(a) && !IsStale(b) && !IsOffset(b) && k != 4 && k != -4
    ensures var inner := Compose(Pow(a, -k, 1), b);
      IsSolid(inner) && (MayConvert(Compose(Pow(a, k, 1), inner), b, v, w) <==> w == v)
  {
    var x := FactorExists(a);
    var y := FactorExists(b);
    var p, q := Raised(x, k), Raised(x, -k);
    PowerFactor(a, k, x);
    PowerFactor(a, -k, x);
    OppositePowers(x, k);
    CancelFactors(p, q, y);
    var inner := Compose(Pow(a, -k, 1), b);
    ComposedFactor(Pow(a, -k, 1), b, q, y);
    ComposedFactor(Pow(a, k, 1), inner, p, By(q, y));
    SameFactorSameValue(Compose(Pow(a, k, 1), inner), b, v, w, y);
  }

  lemma PowerFactor(a: Unit, k: int, x: real)
    requires IsSolid(a) && !IsStale(a) && MayBeFactor(a, x) && x != 0.0 && k != 4
    ensures MayBeFactor(Pow(a, k, 1), Raised(x, k)) && !IsStale(Pow(a, k, 1))
  {
    assert k / 1 == k && k % 1 == 0;
    WholePower(x, k, 1, Raised(x, k));
  }

  lemma ComposedFactor(a: Unit, b: Unit, x: real, y: real)
    requires IsSolid(a) && IsSolid(b) && MayBeFactor(a, x) && MayBeFactor(b, y)
    ensures MayBeFactor(Compose(a, b), By(x, y))
  {
  }

  lemma CancelFactors(p: real, q: real, y: real)
    requires By(p, q) == 1.0
    ensures By(p, By(q, y)) == y
  {
    assert p * (q * y) == (p * q) * y;
  }

  lemma OppositePowers(x: real, k: int)
    requires x != 0.0
    ensures By(Raised(x, k), Raised(x, -k)) == 1.0
  {
    var p := Power(x, if k >= 0 then k else -k);
    PowerNotZero(x, if k >= 0 then k else -k);
    assert p * (1.0 / p) == 1.0;
  }

  // The n-th power of the n-th root is the unit.
  lemma RootIsUndone(a: Unit, n: nat, v: real, w: real)
    requires HasFactor(Pow(a, 1, n)) && IsPositive(a) && !IsStale(a) && !IsOffset(a) && n > 1 && n != 4
    ensures MayConvert(Pow(Pow(a, 1, n), n, 1), a, v, w) <==> w == v
  {
    var x := FactorExists(a);
    var r := UsualPower(a, 1, n, x);
    assert Raised(r, n) == Raised(x, 1) == x by {
      PowerSmall(x);
    }
    WholePower(r, n, 1, x);
    assert MayBeFactor(Pow(a, 1, n), r);
    assert MayBeFactor(Pow(Pow(a, 1, n), n, 1), x);
    SameFactorSameValue(Pow(Pow(a, 1, n), n, 1), a, v, w, x);
  }
}
