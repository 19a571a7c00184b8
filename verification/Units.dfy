/** Units of measurement: which can be converted, and how. */
module Units {

  datatype Unit =
    | Base(id: nat)
    | Compose(first: Unit, second: Unit)
    | Scale(unit: Unit, num: int, den: int) // unit * num / den
    | Translate(unit: Unit, num: int, den: int) // unit + num / den
    | Pow(unit: Unit, num: int, den: int) // unit ^ (num / den)

  // All fractions have a denominator.
  predicate IsProper(u: Unit) {
    match u
    case Base(_) => true
    case Compose(a, b) => IsProper(a) && IsProper(b)
    case Scale(a, _, den) => IsProper(a) && den != 0
    case Translate(a, _, den) => IsProper(a) && den != 0
    case Pow(a, _, den) => IsProper(a) && den != 0
  }

  // ---------- dimensions ----------

  datatype Fraction = Fraction(num: int, den: int)

  // The power of a base unit in a unit. Scaling and translation do not matter.
  function CountTerms(term: nat, u: Unit): (f: Fraction)
    ensures IsProper(u) ==> f.den != 0
  {
    match u
    case Base(id) => if id == term then Fraction(1, 1) else Fraction(0, 1)
    case Scale(a, _, _) => CountTerms(term, a)
    case Translate(a, _, _) => CountTerms(term, a)
    case Compose(a, b) =>
      var f, g := CountTerms(term, a), CountTerms(term, b);
      ProductNotZero(f.den, g.den);
      Fraction(f.num * g.den + f.den * g.num, f.den * g.den)
    case Pow(a, num, den) =>
      var f := CountTerms(term, a);
      ProductNotZero(den, f.den);
      Fraction(num * f.num, den * f.den)
  }

  lemma ProductNotZero(a: int, b: int)
    ensures a != 0 && b != 0 ==> a * b != 0
  {
  }

  // Every base unit that occurs in `terms` has the same power in both units.
  predicate CheckTermsEqual(terms: Unit, u1: Unit, u2: Unit) {
    match terms
    case Base(id) =>
      CountTerms(id, u1).num * CountTerms(id, u2).den == CountTerms(id, u1).den * CountTerms(id, u2).num
    case Pow(a, _, _) => CheckTermsEqual(a, u1, u2)
    case Scale(a, _, _) => CheckTermsEqual(a, u1, u2)
    case Translate(a, _, _) => CheckTermsEqual(a, u1, u2)
    case Compose(a, b) => CheckTermsEqual(a, u1, u2) && CheckTermsEqual(b, u1, u2)
  }

  predicate Convertible(u1: Unit, u2: Unit) {
    CheckTermsEqual(u1, u1, u2) && CheckTermsEqual(u2, u1, u2)
  }

  function Quotient(num: int, den: int): real
    requires den != 0
  {
    num as real / den as real
  }

  function Times(x: real, num: int, den: int): real
    requires den != 0
  {
    x * num as real / den as real
  }

  // The exponent of a base unit, as a number.
  function Exponent(term: nat, u: Unit): real
    requires IsProper(u)
  {
    match u
    case Base(id) => if id == term then 1.0 else 0.0
    case Scale(a, _, _) => Exponent(term, a)
    case Translate(a, _, _) => Exponent(term, a)
    case Compose(a, b) => Exponent(term, a) + Exponent(term, b)
    case Pow(a, num, den) => Times(Exponent(term, a), num, den)
  }

  predicate AgreeOn(u1: Unit, u2: Unit, term: nat)
    requires IsProper(u1) && IsProper(u2)
  {
    Exponent(term, u1) == Exponent(term, u2)
  }

  ghost predicate SameDimension(u1: Unit, u2: Unit)
    requires IsProper(u1) && IsProper(u2)
  {
    forall term :: AgreeOn(u1, u2, term)
  }

  predicate Mentions(u: Unit, term: nat) {
    match u
    case Base(id) => id == term
    case Compose(a, b) => Mentions(a, term) || Mentions(b, term)
    case Scale(a, _, _) => Mentions(a, term)
    case Translate(a, _, _) => Mentions(a, term)
    case Pow(a, _, _) => Mentions(a, term)
  }

  lemma QuotientProduct(x: real, f: int, g: int, n: int, d: int)
    requires g != 0 && d != 0 && x == Quotient(f, g)
    ensures d * g != 0 && Times(x, n, d) == Quotient(n * f, d * g)
  {
    var q := 1.0 / g as real;
    assert x == f as real * q;
    assert (n * f) as real == n as real * f as real && (d * g) as real == d as real * g as real;
  }

  lemma QuotientSum(a: int, b: int, c: int, d: int)
    requires b != 0 && d != 0
    ensures b * d != 0 && Quotient(a, b) + Quotient(c, d) == Quotient(a * d + b * c, b * d)
  {
    assert (b * d) as real == b as real * d as real;
    assert (a * d + b * c) as real == a as real * d as real + b as real * c as real;
  }

  ghost predicate Counted(term: nat, u: Unit)
    requires IsProper(u)
  {
    && CountTerms(term, u).den != 0
    && Exponent(term, u) == Quotient(CountTerms(term, u).num, CountTerms(term, u).den)
  }

  lemma CountedCompose(term: nat, a: Unit, b: Unit)
    requires IsProper(a) && IsProper(b) && Counted(term, a) && Counted(term, b)
    ensures Counted(term, Compose(a, b))
  {
    var f, g := CountTerms(term, a), CountTerms(term, b);
    QuotientSum(f.num, f.den, g.num, g.den);
  }

  lemma CountedPow(term: nat, a: Unit, num: int, den: int)
    requires IsProper(a) && den != 0 && Counted(term, a)
    ensures Counted(term, Pow(a, num, den))
  {
    var f := CountTerms(term, a);
    QuotientProduct(Exponent(term, a), f.num, f.den, num, den);
  }

  // The fraction counted is the exponent.
  lemma {:induction false} CountIsExponent(term: nat, u: Unit)
    requires IsProper(u)
    ensures Counted(term, u)
  {
    match u
    case Base(_) =>
    case Scale(a, _, _) => CountIsExponent(term, a);
    case Translate(a, _, _) => CountIsExponent(term, a);
    case Compose(a, b) =>
      CountIsExponent(term, a);
      CountIsExponent(term, b);
      CountedCompose(term, a, b);
    case Pow(a, num, den) =>
      CountIsExponent(term, a);
      CountedPow(term, a, num, den);
  }

  lemma EqualFractions(a: int, b: int, c: int, d: int)
    requires b != 0 && d != 0
    ensures a * d == b * c <==> Quotient(a, b) == Quotient(c, d)
  {
    var x, y := a as real / b as real, c as real / d as real;
    assert a as real == x * b as real && c as real == y * d as real;
    assert (a * d) as real == a as real * d as real && (b * c) as real == b as real * c as real;
    var bd := b as real * d as real;
    assert (a * d) as real == x * bd && (b * c) as real == y * bd;
    assert bd != 0.0;
  }

  lemma {:induction false} NotMentioned(term: nat, u: Unit)
    requires IsProper(u) && !Mentions(u, term)
    ensures Exponent(term, u) == 0.0
  {
    match u
    case Base(_) =>
    case Scale(a, _, _) => NotMentioned(term, a);
    case Translate(a, _, _) => NotMentioned(term, a);
    case Pow(a, _, _) => NotMentioned(term, a);
    case Compose(a, b) =>
      NotMentioned(term, a);
      NotMentioned(term, b);
  }

  lemma CheckedBase(id: nat, u1: Unit, u2: Unit)
    requires IsProper(u1) && IsProper(u2)
    ensures CheckTermsEqual(Base(id), u1, u2) <==> AgreeOn(u1, u2, id)
  {
    CountIsExponent(id, u1);
    CountIsExponent(id, u2);
    var f, g := CountTerms(id, u1), CountTerms(id, u2);
    EqualFractions(f.num, f.den, g.num, g.den);
  }

  lemma {:induction false} CheckedAreMentioned(terms: Unit, u1: Unit, u2: Unit)
    requires IsProper(u1) && IsProper(u2)
    ensures CheckTermsEqual(terms, u1, u2) <==>
      forall term {:trigger AgreeOn(u1, u2, term)} :: Mentions(terms, term) ==> AgreeOn(u1, u2, term)
  {
    match terms
    case Scale(a, _, _) => CheckedAreMentioned(a, u1, u2);
    case Translate(a, _, _) => CheckedAreMentioned(a, u1, u2);
    case Pow(a, _, _) => CheckedAreMentioned(a, u1, u2);
    case Compose(a, b) =>
      CheckedAreMentioned(a, u1, u2);
      CheckedAreMentioned(b, u1, u2);
    case Base(id) => CheckedBase(id, u1, u2);
  }

  lemma AgreeWhereNotMentioned(u1: Unit, u2: Unit, term: nat)
    requires IsProper(u1) && IsProper(u2) && !Mentions(u1, term) && !Mentions(u2, term)
    ensures AgreeOn(u1, u2, term)
  {
    NotMentioned(term, u1);
    NotMentioned(term, u2);
  }

  // Units are convertible exactly if every base unit, whether they mention it or not, has the same exponent in
  // both. So convertibility is an equivalence.
  lemma ConvertibleIffSameDimension(u1: Unit, u2: Unit)
    requires IsProper(u1) && IsProper(u2)
    ensures Convertible(u1, u2) <==> SameDimension(u1, u2)
  {
    CheckedAreMentioned(u1, u1, u2);
    CheckedAreMentioned(u2, u1, u2);
    forall term | !Mentions(u1, term) && !Mentions(u2, term)
      ensures AgreeOn(u1, u2, term)
    {
      AgreeWhereNotMentioned(u1, u2, term);
    }
  }

  lemma SameDimensionIsEquivalence(u1: Unit, u2: Unit, u3: Unit)
    requires IsProper(u1) && IsProper(u2) && IsProper(u3)
    ensures SameDimension(u1, u1) && (SameDimension(u1, u2) ==> SameDimension(u2, u1))
    ensures SameDimension(u1, u2) && SameDimension(u2, u3) ==> SameDimension(u1, u3)
  {
    forall term
      ensures AgreeOn(u1, u1, term)
      ensures AgreeOn(u1, u2, term) ==> AgreeOn(u2, u1, term)
      ensures AgreeOn(u1, u2, term) && AgreeOn(u2, u3, term) ==> AgreeOn(u1, u3, term)
    {
    }
  }

  lemma ConvertibleIsEquivalence(u1: Unit, u2: Unit, u3: Unit)
    requires IsProper(u1) && IsProper(u2) && IsProper(u3)
    ensures Convertible(u1, u1)
    ensures Convertible(u1, u2) ==> Convertible(u2, u1)
    ensures Convertible(u1, u2) && Convertible(u2, u3) ==> Convertible(u1, u3)
  {
    ConvertibleIffSameDimension(u1, u1);
    ConvertibleIffSameDimension(u1, u2);
    ConvertibleIffSameDimension(u2, u1);
    ConvertibleIffSameDimension(u2, u3);
    ConvertibleIffSameDimension(u1, u3);
    SameDimensionIsEquivalence(u1, u2, u3);
  }
}
