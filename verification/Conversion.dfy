/** Converting values between units, on exact real numbers. */
module Conversions {
  import opened RealPowers
  import opened ScalingFactors
  import opened Units

  function Over(x: real, f: real): real
    requires f != 0.0
  {
    x / f
  }

  // A value of unit u1 as a value of unit u2, where f and g are the scaling factors of what remains of the units
  // without scaling and translation.
  function Convert(u1: Unit, u2: Unit, v: real, f: real, g: real): real
    requires IsSolid(u1) && IsSolid(u2) && f != 0.0
    decreases u1, u2, 2
  {
    if u1 == u2 then v else Convert2(u1, u2, v, f, g)
  }

  // from a scaled or translated unit
  function Convert2(u1: Unit, u2: Unit, v: real, f: real, g: real): real
    requires IsSolid(u1) && IsSolid(u2) && f != 0.0
    decreases u1, u2, 1
  {
    match u1
    case Scale(a, num, den) => Convert(a, u2, Times(v, den, num), f, g)
    case Translate(a, num, den) => Convert(a, u2, v - Quotient(num, den), f, g)
    case _ => Convert3(u1, u2, v, f, g)
  }

  // to a scaled or translated unit
  function Convert3(u1: Unit, u2: Unit, v: real, f: real, g: real): real
    requires IsSolid(u1) && IsSolid(u2) && f != 0.0
    decreases u1, u2, 0
  {
    if u1 == u2 then v
    else
      match u2
      case Scale(a, num, den) => Times(Convert(u1, a, v, f, g), num, den)
      case Translate(a, num, den) => Convert(u1, a, v, f, g) + Quotient(num, den)
      case _ => Over(By(v, g), f)
  }

  // A unit without the scaling and translation around it.
  function Core(u: Unit): (c: Unit)
    ensures IsSolid(u) ==> IsSolid(c)
    ensures !c.Scale? && !c.Translate?
  {
    match u
    case Scale(a, _, _) => Core(a)
    case Translate(a, _, _) => Core(a)
    case _ => u
  }

  // w may be what the value v of unit u1 is converted to. Scaling factors are asked for only if there is something
  // to convert between the cores, and anew for every conversion.
  ghost predicate MayConvert(u1: Unit, u2: Unit, v: real, w: real)
    requires IsSolid(u1) && IsSolid(u2)
  {
    if Core(u1) == Core(u2) then w == Convert(u1, u2, v, 1.0, 1.0)
    else
      exists f, g :: f != 0.0 && MayBeFactor(Core(u1), f) && g != 0.0 && MayBeFactor(Core(u2), g)
        && w == Convert(u1, u2, v, f, g)
  }

  // ---------- what conversion means ----------

  // A value in terms of the core of its unit, and back.
  function ToCore(u: Unit, v: real): real
    requires IsSolid(u)
  {
    match u
    case Scale(a, num, den) => ToCore(a, Times(v, den, num))
    case Translate(a, num, den) => ToCore(a, v - Quotient(num, den))
    case _ => v
  }

  function FromCore(u: Unit, x: real): real
    requires IsSolid(u)
  {
    match u
    case Scale(a, num, den) => Times(FromCore(a, x), num, den)
    case Translate(a, num, den) => FromCore(a, x) + Quotient(num, den)
    case _ => x
  }

  // From core to core.
  function Between(u1: Unit, u2: Unit, x: real, f: real, g: real): real
    requires f != 0.0
  {
    if Core(u1) == Core(u2) then x else Over(By(x, g), f)
  }

  lemma TimesBack(x: real, num: int, den: int)
    requires num != 0 && den != 0
    ensures Times(Times(x, num, den), den, num) == x
  {
    var n, d := num as real, den as real;
    var y := x * n / d;
    assert y * d == x * n;
    assert y * d / n == x;
  }

  lemma {:induction false} CoreInverse(u: Unit, x: real)
    requires IsSolid(u)
    ensures FromCore(u, ToCore(u, x)) == x && ToCore(u, FromCore(u, x)) == x
  {
    match u
    case Scale(a, num, den) =>
      CoreInverse(a, Times(x, den, num));
      CoreInverse(a, x);
      TimesBack(x, den, num);
      TimesBack(FromCore(a, x), num, den);
    case Translate(a, num, den) =>
      CoreInverse(a, x - Quotient(num, den));
      CoreInverse(a, x);
    case _ =>
  }

  // However units are nested, converting is going down to the core, from core to core, and up again.
  lemma {:induction false} ConvertIsThroughBase(u1: Unit, u2: Unit, v: real, f: real, g: real)
    requires IsSolid(u1) && IsSolid(u2) && f != 0.0
    ensures Convert(u1, u2, v, f, g) == FromCore(u2, Between(u1, u2, ToCore(u1, v), f, g))
    decreases u1, u2
  {
    if u1 == u2 {
      CoreInverse(u1, v);
    } else {
      match u1
      case Scale(a, num, den) => ConvertIsThroughBase(a, u2, Times(v, den, num), f, g);
      case Translate(a, num, den) => ConvertIsThroughBase(a, u2, v - Quotient(num, den), f, g);
      case _ =>
        assert Convert2(u1, u2, v, f, g) == Convert3(u1, u2, v, f, g);
        match u2
        case Scale(a, _, _) => ConvertIsThroughBase(u1, a, v, f, g);
        case Translate(a, _, _) => ConvertIsThroughBase(u1, a, v, f, g);
        case _ =>
    }
  }

  // The ratio g / f, and then h / g.
  lemma RatiosCompose(x: real, f: real, g: real, h: real)
    requires f != 0.0 && g != 0.0
    ensures Over(By(Over(By(x, g), f), h), g) == Over(By(x, h), f)
  {
    var q := x / f;
    assert q * f == x;
    DivisionIs(x * g, f, q * g);
    DivisionIs(x * h, f, q * h);
    DivisionIs(q * g * h, g, q * h);
  }

  lemma RatioOfOne(x: real, f: real)
    requires f != 0.0
    ensures Over(By(x, f), f) == x
  {
  }

  // What may come out of a conversion.
  lemma MayConvertIs(u1: Unit, u2: Unit, v: real, w: real) returns (f: real, g: real)
    requires IsSolid(u1) && IsSolid(u2) && MayConvert(u1, u2, v, w)
    ensures f != 0.0 && g != 0.0 && w == FromCore(u2, Between(u1, u2, ToCore(u1, v), f, g))
    ensures Core(u1) != Core(u2) ==> MayBeFactor(Core(u1), f) && MayBeFactor(Core(u2), g)
  {
    if Core(u1) == Core(u2) {
      f, g := 1.0, 1.0;
    } else {
      f, g :| f != 0.0 && MayBeFactor(Core(u1), f) && g != 0.0 && MayBeFactor(Core(u2), g)
        && w == Convert(u1, u2, v, f, g);
    }
    ConvertIsThroughBase(u1, u2, v, f, g);
  }

  lemma WithFactors(u1: Unit, u2: Unit, x: real, f: real, g: real)
    requires IsSolid(u1) && IsSolid(u2) && f != 0.0 && g != 0.0
    requires Core(u1) != Core(u2) ==> MayBeFactor(Core(u1), f) && MayBeFactor(Core(u2), g)
    ensures MayConvert(u1, u2, FromCore(u1, x), FromCore(u2, Between(u1, u2, x, f, g)))
  {
    CoreInverse(u1, x);
    ConvertIsThroughBase(u1, u2, FromCore(u1, x), f, g);
    ConvertIsThroughBase(u1, u2, FromCore(u1, x), 1.0, 1.0);
  }

  // ---------- when conversion can be relied on ----------

  // No stale factor is asked for.
  predicate IsReliable(u1: Unit, u2: Unit)
    requires IsSolid(u1) && IsSolid(u2)
  {
    Core(u1) == Core(u2) || (!IsStale(u1) && !IsStale(u2))
  }

  lemma {:induction false} StaleCore(u: Unit)
    requires IsSolid(u)
    ensures IsStale(u) == IsStale(Core(u))
    ensures HasFactor(u) ==> HasFactor(Core(u))
  {
    match u
    case Scale(a, _, _) => StaleCore(a);
    case Translate(a, _, _) => StaleCore(a);
    case _ =>
  }

  lemma CoreFactorIsUnique(u: Unit, f: real, g: real)
    requires IsSolid(u) && !IsStale(u) && MayBeFactor(Core(u), f) && MayBeFactor(Core(u), g)
    ensures f == g
  {
    StaleCore(u);
    FactorIsUnique(Core(u), f, g);
  }

  // f and g may be the factors that a conversion from u1 to u2 asks for.
  ghost predicate AreFactors(u1: Unit, u2: Unit, f: real, g: real)
    requires IsSolid(u1) && IsSolid(u2)
  {
    f != 0.0 && g != 0.0 && (Core(u1) != Core(u2) ==> MayBeFactor(Core(u1), f) && MayBeFactor(Core(u2), g))
  }

  lemma ReliableComposes(u1: Unit, u2: Unit, u3: Unit)
    requires IsSolid(u1) && IsSolid(u2) && IsSolid(u3)
    ensures IsReliable(u1, u2) == IsReliable(u2, u1)
    ensures IsReliable(u1, u2) && IsReliable(u2, u3) ==> IsReliable(u1, u3)
  {
    StaleCore(u1);
    StaleCore(u2);
    StaleCore(u3);
  }

  lemma DetourBetween(u1: Unit, u2: Unit, u3: Unit, x: real, f: real, g: real, g': real, h: real, f': real, h': real)
    requires IsSolid(u1) && IsSolid(u2) && IsSolid(u3)
    requires IsReliable(u1, u2) && IsReliable(u2, u3) && IsReliable(u1, u3)
    requires AreFactors(u1, u2, f, g) && AreFactors(u2, u3, g', h) && AreFactors(u1, u3, f', h')
    ensures Between(u2, u3, Between(u1, u2, x, f, g), g', h) == Between(u1, u3, x, f', h')
  {
    var c1, c2, c3 := Core(u1), Core(u2), Core(u3);
    if c1 == c2 && c2 != c3 {
      CoreFactorIsUnique(u1, g', f');
      CoreFactorIsUnique(u3, h, h');
    } else if c1 != c2 && c2 == c3 {
      CoreFactorIsUnique(u1, f, f');
      CoreFactorIsUnique(u3, g, h');
    } else if c1 != c2 && c2 != c3 {
      TwoSteps(u1, u2, u3, x, f, g, g', h, f', h');
    }
  }

  lemma TwoSteps(u1: Unit, u2: Unit, u3: Unit, x: real, f: real, g: real, g': real, h: real, f': real, h': real)
    requires IsSolid(u1) && IsSolid(u2) && IsSolid(u3) && Core(u1) != Core(u2) && Core(u2) != Core(u3)
    requires !IsStale(u1) && !IsStale(u2) && !IsStale(u3)
    requires AreFactors(u1, u2, f, g) && AreFactors(u2, u3, g', h) && AreFactors(u1, u3, f', h')
    ensures Between(u2, u3, Between(u1, u2, x, f, g), g', h) == Between(u1, u3, x, f', h')
  {
    CoreFactorIsUnique(u2, g, g');
    RatiosCompose(x, f, g, h);
    if Core(u1) == Core(u3) {
      CoreFactorIsUnique(u1, f, h);
      RatioOfOne(x, f);
    } else {
      CoreFactorIsUnique(u1, f, f');
      CoreFactorIsUnique(u3, h, h');
    }
  }

  // If neither conversion asks for a stale factor, a detour over u2 gives what may come out directly.
  lemma DetourIsDirect(u1: Unit, u2: Unit, u3: Unit, v: real, w: real, x: real, y: real)
    requires IsSolid(u1) && IsSolid(u2) && IsSolid(u3) && IsReliable(u1, u2) && IsReliable(u2, u3)
    requires MayConvert(u1, u2, v, w) && MayConvert(u2, u3, w, x) && MayConvert(u1, u3, v, y)
    ensures x == y
  {
    var f, g := MayConvertIs(u1, u2, v, w);
    var g', h := MayConvertIs(u2, u3, w, x);
    var f', h' := MayConvertIs(u1, u3, v, y);
    CoreInverse(u2, Between(u1, u2, ToCore(u1, v), f, g));
    ReliableComposes(u1, u2, u3);
    DetourBetween(u1, u2, u3, ToCore(u1, v), f, g, g', h, f', h');
  }

  lemma ToItself(u: Unit, v: real)
    requires IsSolid(u)
    ensures MayConvert(u, u, v, v)
  {
  }

  // ---------- when it cannot ----------

  // Going there with one pair of factors and back with another that has a different ratio.
  lemma ThereAndBack(u1: Unit, u2: Unit, f: real, g: real, f': real, g': real) returns (v: real, w: real, x: real)
    requires IsSolid(u1) && IsSolid(u2) && Core(u1) != Core(u2)
    requires AreFactors(u1, u2, f, g) && AreFactors(u2, u1, g', f')
    requires (f == f' && g != g') || (f != f' && g == g')
    ensures MayConvert(u1, u2, v, w) && MayConvert(u2, u1, w, x) && x != v
  {
    var y := Over(By(1.0, g), f);
    var z := Over(By(y, f'), g');
    WithFactors(u1, u2, 1.0, f, g);
    WithFactors(u2, u1, y, g', f');
    v, w, x := FromCore(u1, 1.0), FromCore(u2, y), FromCore(u1, z);
    CoreInverse(u1, 1.0);
    CoreInverse(u1, z);
    RatioDiffers(f, g, f', g');
  }

  lemma RatioDiffers(f: real, g: real, f': real, g': real)
    requires f != 0.0 && g != 0.0 && f' != 0.0 && g' != 0.0
    requires (f == f' && g != g') || (f != f' && g == g')
    ensures Over(By(Over(By(1.0, g), f), f'), g') != 1.0
  {
    var y := g / f;
    var z := y * f' / g';
    assert y * f == g;
    assert z * g' == y * f';
    if z == 1.0 {
      assert g' == y * f';
      if f != f' {
        assert y * (f' - f) == 0.0;
        assert y != 0.0;
      }
    }
  }

  lemma Unreliable(u1: Unit, u2: Unit) returns (v: real, w: real, x: real)
    requires HasFactor(u1) && HasFactor(u2) && !IsReliable(u1, u2)
    ensures MayConvert(u1, u2, v, w) && MayConvert(u2, u1, w, x) && x != v
  {
    StaleCore(u1);
    StaleCore(u2);
    if IsStale(u1) {
      var f, f' := FactorsDiffer(Core(u1));
      var g := FactorExists(Core(u2));
      v, w, x := ThereAndBack(u1, u2, f, g, f', g);
    } else {
      var f := FactorExists(Core(u1));
      var g, g' := FactorsDiffer(Core(u2));
      v, w, x := ThereAndBack(u1, u2, f, g, f, g');
    }
  }

  // There and back is the same value for all values, whatever is found in dead storage, exactly if no stale factor
  // is asked for.
  lemma RoundTripsExactly(u1: Unit, u2: Unit)
    requires HasFactor(u1) && HasFactor(u2)
    ensures (forall v, w, x :: MayConvert(u1, u2, v, w) && MayConvert(u2, u1, w, x) ==> x == v) <==> IsReliable(u1, u2)
  {
    if IsReliable(u1, u2) {
      ReliableComposes(u1, u2, u1);
      forall v, w, x | MayConvert(u1, u2, v, w) && MayConvert(u2, u1, w, x)
        ensures x == v
      {
        ToItself(u1, v);
        DetourIsDirect(u1, u2, u1, v, w, x, v);
      }
    } else {
      var v, w, x := Unreliable(u1, u2);
    }
  }

  // Something comes out of every conversion.
  lemma SomethingComesOut(u1: Unit, u2: Unit, v: real) returns (w: real)
    requires HasFactor(u1) && HasFactor(u2)
    ensures MayConvert(u1, u2, v, w)
  {
    StaleCore(u1);
    StaleCore(u2);
    var f := FactorExists(Core(u1));
    var g := FactorExists(Core(u2));
    CoreInverse(u1, v);
    WithFactors(u1, u2, ToCore(u1, v), f, g);
    w := FromCore(u2, Between(u1, u2, ToCore(u1, v), f, g));
  }

  // ---------- values with units ----------

  datatype Value = Value(amount: real, unit: Unit)

  // w may be v in the unit of w. Only values of convertible units are converted.
  ghost predicate ConvertsTo(v: Value, w: Value)
    requires IsSolid(v.unit) && IsSolid(w.unit)
  {
    Convertible(v.unit, w.unit) && MayConvert(v.unit, w.unit, v.amount, w.amount)
  }

  // Converting there and back gives the same value, for units that are converted without stale factors.
  lemma ConvertRoundTrip(v: Value, w: Value)
    requires IsSolid(v.unit) && IsSolid(w.unit) && IsReliable(v.unit, w.unit) && ConvertsTo(v, w)
    ensures ConvertsTo(w, v)
    ensures forall x: Value :: x.unit == v.unit && ConvertsTo(w, x) ==> x == v
  {
    SolidIsProper(v.unit);
    SolidIsProper(w.unit);
    ConvertibleIsEquivalence(v.unit, w.unit, w.unit);
    ReliableComposes(v.unit, w.unit, v.unit);
    ConvertsBack(v.unit, w.unit, v.amount, w.amount);
    ToItself(v.unit, v.amount);
    forall x: Value | x.unit == v.unit && ConvertsTo(w, x)
      ensures x == v
    {
      DetourIsDirect(v.unit, w.unit, v.unit, v.amount, w.amount, x.amount, v.amount);
    }
  }

  // The same factors lead back.
  lemma ConvertsBack(u1: Unit, u2: Unit, v: real, w: real)
    requires IsSolid(u1) && IsSolid(u2) && MayConvert(u1, u2, v, w)
    ensures MayConvert(u2, u1, w, v)
  {
    var f, g := MayConvertIs(u1, u2, v, w);
    var x := ToCore(u1, v);
    WithFactors(u2, u1, Between(u1, u2, x, f, g), g, f);
    RatiosCompose(x, f, g, f);
    RatioOfOne(x, f);
    CoreInverse(u1, v);
  }

  // A detour over another unit changes nothing.
  lemma ConvertComposes(v: Value, w: Value, x: Value)
    requires IsSolid(v.unit) && IsSolid(w.unit) && IsSolid(x.unit)
    requires IsReliable(v.unit, w.unit) && IsReliable(w.unit, x.unit) && ConvertsTo(v, w) && ConvertsTo(w, x)
    ensures ConvertsTo(v, x)
    ensures forall y: Value :: y.unit == x.unit && ConvertsTo(v, y) ==> y == x
  {
    SolidIsProper(v.unit);
    SolidIsProper(w.unit);
    SolidIsProper(x.unit);
    ConvertibleIsEquivalence(v.unit, w.unit, x.unit);
    DetourExists(v.unit, w.unit, x.unit, v.amount, w.amount, x.amount);
    forall y: Value | y.unit == x.unit && ConvertsTo(v, y)
      ensures y == x
    {
      DetourIsDirect(v.unit, w.unit, x.unit, v.amount, w.amount, x.amount, y.amount);
    }
  }

  lemma DetourExists(u1: Unit, u2: Unit, u3: Unit, v: real, w: real, x: real)
    requires IsSolid(u1) && IsSolid(u2) && IsSolid(u3) && IsReliable(u1, u2) && IsReliable(u2, u3)
    requires MayConvert(u1, u2, v, w) && MayConvert(u2, u3, w, x)
    ensures MayConvert(u1, u3, v, x)
  {
    var f, g := MayConvertIs(u1, u2, v, w);
    var g', h := MayConvertIs(u2, u3, w, x);
    var base := ToCore(u1, v);
    CoreInverse(u1, v);
    CoreInverse(u2, Between(u1, u2, base, f, g));
    ReliableComposes(u1, u2, u3);
    var f' := if Core(u1) == Core(u2) then g' else f;
    var h' := if Core(u2) == Core(u3) then g else h;
    DetourBetween(u1, u2, u3, base, f, g, g', h, f', h');
    WithFactors(u1, u3, base, f', h');
  }

  // Are two values equal, the second converted to the unit of the first?
  ghost predicate AreEqual(a: Value, b: Value)
    requires IsSolid(a.unit) && IsSolid(b.unit)
  {
    ConvertsTo(b, a)
  }

  // It does not matter which of the two is converted.
  lemma EqualIsEquivalence(a: Value, b: Value, c: Value)
    requires IsSolid(a.unit) && IsSolid(b.unit) && IsSolid(c.unit)
    requires IsReliable(a.unit, b.unit) && IsReliable(b.unit, c.unit)
    ensures AreEqual(a, a) && (AreEqual(a, b) ==> AreEqual(b, a))
    ensures AreEqual(a, b) && AreEqual(b, c) ==> AreEqual(a, c)
  {
    SolidIsProper(a.unit);
    ConvertibleIsEquivalence(a.unit, a.unit, a.unit);
    ToItself(a.unit, a.amount);
    ReliableComposes(a.unit, b.unit, c.unit);
    ReliableComposes(b.unit, c.unit, c.unit);
    if AreEqual(a, b) {
      ConvertRoundTrip(b, a);
      if AreEqual(b, c) {
        ConvertComposes(c, b, a);
      }
    }
  }
}
