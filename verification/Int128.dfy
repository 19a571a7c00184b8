/** A signed 128-bit integer in two words. */
module Int128s {
  import opened LongDivision
  import opened Powers
  import opened TwosComplement

  class Int128 {
    var lo: Uint64
    var hi: Int64

    function Value(): (v: int)
      reads this
      ensures InRange(v)
    {
      NumberInRange(lo, hi);
      Number(lo, hi)
    }

    constructor (lo: Uint64, hi: Int64)
      ensures this.lo == lo && this.hi == hi
    {
      this.lo, this.hi := lo, hi;
    }

    constructor Copy(a: Int128)
      ensures lo == a.lo && hi == a.hi
    {
      lo, hi := a.lo, a.hi;
    }

    // A signed native integer: the sign is carried into the high word.
    constructor FromInt64(a: Int64)
      ensures Value() == a
    {
      lo, hi := Unsigned(a), if a < 0 then -1 else 0;
    }

    // An assignment, other than a construction, leaves the high word zero: it is right exactly for numbers
    // that are not negative.
    method AssignInt64(a: Int64)
      modifies this
      ensures Value() == if a < 0 then a + TWO64 else a
    {
      lo := Unsigned(a);
      hi := 0;
    }

    method Assign(a: Int128)
      modifies this
      ensures Value() == old(a.Value())
    {
      lo, hi := a.lo, a.hi;
    }

    predicate IsZero()
      reads this
      ensures IsZero() <==> Value() == 0
    {
      hi == 0 && lo == 0
    }

    predicate LessThan(b: Int128)
      reads this, b
    {
      Less(lo, hi, b.lo, b.hi)
    }

    // For the sign test and for numbers that are not negative, the comparison is right.
    lemma ComparesRight(b: Int128)
      requires Value() >= 0 || b.Value() >= 0
      ensures LessThan(b) <==> Value() < b.Value()
    {
      LessIsLess(lo, hi, b.lo, b.hi);
    }

    method Negated() returns (n: Int128)
      ensures fresh(n) && n.Value() == Wrap(-Value())
    {
      NegIsNegative(lo, hi);
      n := new Int128(NegLo(lo), NegHi(lo, hi));
    }

    // b may be this number itself
    method AddAssign(b: Int128)
      modifies this
      ensures Value() == Wrap(old(Value()) + old(b.Value()))
    {
      SumIsSum(lo, hi, b.lo, b.hi);
      var oldLo := lo;
      lo := SumLo(lo, b.lo);
      hi := Signed(hi + b.hi);
      if lo < oldLo {
        hi := Signed(hi + 1);
      }
    }

    method SubAssign(b: Int128)
      modifies this
      ensures Value() == Wrap(old(Value()) - old(b.Value()))
    {
      var n := b.Negated();
      WrapAdd(-b.Value(), Value());
      AddAssign(n);
    }

    method ShrAssign(n: nat)
      modifies this
      ensures Value() == old(Value()) / Pow2(n)
    {
      ShrIsQuotient(lo, hi, n);
      lo, hi := ShrLo(lo, hi, n), ShrHi(hi, n);
    }

    method ShlAssign(n: nat)
      modifies this
      ensures Value() == Wrap(old(Value()) * Pow2(n))
    {
      ShlIsProduct(lo, hi, n);
      lo, hi := ShlLo(lo, n), ShlHi(lo, hi, n);
    }

    method Shl(n: nat) returns (r: Int128)
      ensures fresh(r) && r.Value() == Wrap(Value() * Pow2(n))
    {
      r := new Int128.Copy(this);
      r.ShlAssign(n);
    }

    function TestBit(n: nat): (b: bool)
      reads this
      ensures b <==> Bit(Value(), n) == 1
    {
      TestBitIsBit(lo, hi, n);
      TwosComplement.TestBit(lo, hi, n)
    }

    method SetBit(n: nat, val: bool)
      modifies this
      ensures n >= 128 || old(TestBit(n)) == val ==> Value() == old(Value())
      ensures n < 128 && old(TestBit(n)) != val ==> Value() == Wrap(old(Value()) + (if val then Pow2(n) else -Pow2(n)))
    {
      if n < 128 {
        SetBitAdds(lo, hi, n, val);
        lo, hi := SetLo(lo, n, val), SetHi(hi, n, val);
      }
    }

    // ---------- multiplication ----------

    // one round: bit i of the multiplier is now the lowest bit of t
    method AddIfOdd(a: Int128, t: Int128, i: nat, ghost sum: int)
      requires t != this && a != this && t != a && Value() == Wrap(sum)
      modifies this, t
      ensures t.Value() == old(t.Value()) / 2
      ensures Value() == Wrap(AddBit(sum, old(t.Value()) % 2 == 1, a.Value() * Pow2(i)))
    {
      assert t.Value() % 2 == t.lo % 2 by {
        EvenPart(t.hi * TWO63, t.lo);
      }
      if t.lo % 2 == 1 {
        var shifted := a.Shl(i);
        WrapBoth(sum, a.Value() * Pow2(i));
        AddAssign(shifted);
      }
      assert Pow2(1) == 2;
      t.ShrAssign(1);
    }

    // The product, modulo 2^128. b may be this number itself.
    method MulAssign(b: Int128)
      modifies this
      ensures Value() == Wrap(old(Value()) * old(b.Value()))
    {
      if b.IsZero() {
        lo, hi := 0, 0;
        WrapSame(0);
        return;
      }
      if b.lo == 1 && b.hi == 0 {
        WrapSame(Value());
        return;
      }
      var a := new Int128.Copy(this);
      var t := new Int128.Copy(b);
      ghost var x, y := a.Value(), t.Value();
      lo, hi := 0, 0;
      WrapSame(0);
      NextQuotient(y, 0);
      for i := 0 to 128
        invariant fresh(a) && fresh(t) && a != t
        invariant a.Value() == x && t.Value() == y / Pow2(i) && Value() == Wrap(ShiftedSum(x, y, i))
      {
        NextQuotient(y, i);
        AddIfOdd(a, t, i, ShiftedSum(x, y, i));
      }
      ShiftedSumIsProduct(x, y);
    }

    // ---------- division ----------

    // the bitwise or of the low word with 1
    method OrOne()
      requires Value() % 2 == 0
      modifies this
      ensures Value() == old(Value()) + 1
    {
      EvenPart(hi * TWO63, lo);
      lo := if lo % 2 == 1 then lo else lo + 1;
    }

    method Double()
      modifies this
      ensures Value() == Wrap(2 * old(Value()))
    {
      assert Pow2(1) == 2;
      ShlAssign(1);
    }

    // a bit is shifted in from below
    method PushBit(bit: bool)
      requires 0 <= Value() && 2 * Value() + 1 <= TWO127
      modifies this
      ensures Value() == 2 * old(Value()) + (if bit then 1 else 0)
    {
      WrapSame(2 * Value());
      Double();
      if bit {
        OrOne();
      }
    }

    // r takes over bit b of the dividend.
    method PullBit(r: Int128, b: nat)
      requires r != this && 0 <= 2 * r.Value() + Bit(Value(), b) < TWO127
      modifies r
      ensures r.Value() == 2 * old(r.Value()) + Bit(Value(), b)
    {
      BitRange(Value(), b);
      var bit := TestBit(b);
      r.PushBit(bit);
    }

    // The bit index is a 32-bit number that may go below zero.
    static function Before(b: Uint32): Uint32 {
      if b == 0 then 0xFFFF_FFFF else b - 1
    }

    static function After(b: Uint32): Uint32 {
      if b == 0xFFFF_FFFF then 0 else b + 1
    }

    // the first loop: finds the first rest that the divisor goes into
    method FindStart(ds: Int128, r: Int128) returns (b: Uint32)
      requires r != this && r != ds && 0 < ds.Value() <= Value() && r.Value() == 0
      modifies r
      ensures b < 128 && Dividing(Value(), ds.Value(), b, 0, r.Value(), 0)
      ensures ds.Value() <= r.Value() < 2 * ds.Value()
    {
      ghost var D, S := Value(), ds.Value();
      b := 127;
      ghost var c := 128; // the bits from c on are in r
      Started(D, S);
      r.ComparesRight(ds);
      while r.LessThan(ds)
        invariant Value() == D && ds.Value() == S && c <= 128 && b == if c == 0 then 0xFFFF_FFFF else c - 1
        invariant Dividing(D, S, c, 0, r.Value(), 0) && r.Value() < 2 * S
        invariant c == 128 ==> r.Value() == 0
        invariant r.LessThan(ds) <==> r.Value() < S
        decreases c
      {
        StillLess(D, S, c, r.Value());
        Pulled(D, S, c, 0, r.Value(), 0);
        PullBit(r, b);
        b := Before(b);
        c := c - 1;
        r.ComparesRight(ds);
      }
      b := After(b);
    }

    // a round of the second loop in which the divisor goes into the rest
    method TakeOff(ds: Int128, r: Int128, q: Int128, b: Uint32, ghost D: int, ghost Q: int)
      requires q != r && q != ds && r != ds && b < 128
      requires Dividing(D, ds.Value(), b, Q, r.Value(), q.Value())
      requires ds.Value() <= r.Value() < 2 * ds.Value() && Q % 2 == 0
      modifies r, q
      ensures Dividing(D, ds.Value(), b, Q + 1, r.Value(), q.Value())
      ensures 0 <= r.Value() < ds.Value() && r.Value() < old(r.Value())
    {
      ghost var x, y, S := r.Value(), q.Value(), ds.Value();
      Subtracted(D, S, b, Q, x, y);
      r.SubAssign(ds);
      WrapSame(x - S);
      NextBitClear(Q, b);
      q.SetBit(b, true);
      WrapSame(y + Pow2(b));
    }

    // a round of the second loop in which the rest takes over a bit
    method PullNext(ds: Int128, r: Int128, b: Uint32, ghost Q: int, ghost q: int) returns (ghost Q': int)
      requires r != this && r != ds && b < 128
      requires Dividing(Value(), ds.Value(), b + 1, Q, r.Value(), q) && r.Value() < ds.Value()
      modifies r
      ensures Dividing(Value(), ds.Value(), b, Q', r.Value(), q) && 0 <= r.Value() < 2 * ds.Value() && Q' % 2 == 0
    {
      Q' := NextPulled(Value(), ds.Value(), b + 1, Q, r.Value(), q);
      PullBit(r, b);
    }

    // a round of the second loop
    method NextRound(ds: Int128, r: Int128, q: Int128, b: Uint32, ghost Q: int) returns (b': Uint32, ghost Q': int)
      requires r != this && q != this && q != r && q != ds && r != ds && b < 128
      requires Dividing(Value(), ds.Value(), b, Q, r.Value(), q.Value()) && r.Value() < 2 * ds.Value()
      requires r.Value() >= ds.Value() ==> Q % 2 == 0
      requires b == 0 ==> r.Value() >= ds.Value()
      modifies r, q
      ensures b' <= b && (b' < b || r.Value() < old(r.Value()))
      ensures Dividing(Value(), ds.Value(), b', Q', r.Value(), q.Value()) && 0 <= r.Value() < 2 * ds.Value()
      ensures r.Value() >= ds.Value() ==> Q' % 2 == 0
    {
      r.ComparesRight(ds);
      if r.LessThan(ds) {
        b' := b - 1;
        Q' := PullNext(ds, r, b', Q, q.Value());
      } else {
        b', Q' := b, Q + 1;
        TakeOff(ds, r, q, b, Value(), Q);
      }
    }

    // the second loop: the remaining bits
    method Finish(ds: Int128, r: Int128, q: Int128, start: Uint32)
      requires r != this && q != this && q != r && q != ds && r != ds
      requires start < 128 && Dividing(Value(), ds.Value(), start, 0, r.Value(), q.Value())
      requires ds.Value() <= r.Value() < 2 * ds.Value()
      modifies r, q
      ensures Value() == q.Value() * ds.Value() + r.Value() && 0 <= r.Value() < ds.Value() && 0 <= q.Value()
    {
      ghost var Q := 0;
      var b := start;
      r.ComparesRight(ds);
      while !r.LessThan(ds) || b != 0
        invariant b < 128 && Value() == old(Value()) && ds.Value() == old(ds.Value())
        invariant Dividing(Value(), ds.Value(), b, Q, r.Value(), q.Value()) && 0 <= r.Value() < 2 * ds.Value()
        invariant r.LessThan(ds) <==> r.Value() < ds.Value()
        invariant r.Value() >= ds.Value() ==> Q % 2 == 0
        decreases b, r.Value()
      {
        b, Q := NextRound(ds, r, q, b, Q);
        r.ComparesRight(ds);
      }
      NothingLeft(Value(), ds.Value(), Q, r.Value(), q.Value());
    }

    method Magnitude() returns (m: Int128)
      ensures fresh(m) && m.Value() == if Value() < 0 then Wrap(-Value()) else Value()
    {
      if hi < 0 {
        m := Negated();
      } else {
        m := new Int128.Copy(this);
      }
    }

    // both loops
    method DivUnsigned(ds: Int128) returns (q: Int128, r: Int128)
      requires 0 < ds.Value() <= Value()
      ensures fresh(q) && fresh(r)
      ensures Value() == q.Value() * ds.Value() + r.Value() && 0 <= r.Value() < ds.Value() && 0 <= q.Value()
    {
      r := new Int128(0, 0);
      q := new Int128(0, 0);
      var b := FindStart(ds, r);
      Finish(ds, r, q, b);
    }

    method WithSign(negative: bool) returns (n: Int128)
      requires Value() >= 0
      ensures n == this || fresh(n)
      ensures n.Value() == if negative then -Value() else Value()
    {
      n := this;
      if negative {
        WrapSame(-Value());
        n := Negated();
      }
    }

    // Divides by a number other than 0; the rest is stored in `remainder`, which may be this number. Every
    // dividend but -2^127 is divided right; by -2^127 the division does not end.
    method Div(divisor: Int128, remainder: Int128) returns (quotient: Int128)
      requires divisor.Value() != 0 && divisor.Value() != -TWO127
      modifies remainder
      ensures fresh(quotient)
      ensures IsTruncated(old(Value()), old(divisor.Value()), quotient.Value(), remainder.Value())
              <==> old(Value()) != -TWO127
      ensures old(Value()) == -TWO127 ==> quotient.Value() == 0 && remainder.Value() == -TWO127
    {
      var ds := divisor.Magnitude();
      var dd := Magnitude();
      ghost var a, d := Value(), divisor.Value();
      NegatedMagnitude(d);
      NegatedMagnitude(a);
      dd.ComparesRight(ds);
      if dd.LessThan(ds) {
        remainder.Assign(this);
        quotient := new Int128(0, 0);
        return;
      }
      var q, r := dd.DivUnsigned(ds);
      SignsRestored(a, d, q.Value(), r.Value());
      quotient := q.WithSign((divisor.hi < 0) != (hi < 0));
      r := r.WithSign(hi < 0);
      remainder.Assign(r);
    }

    method DivAssign(b: Int128)
      requires b.Value() != 0 && b.Value() != -TWO127
      modifies this
      ensures old(Value()) != -TWO127 ==> exists r :: IsTruncated(old(Value()), old(b.Value()), Value(), r)
      ensures old(Value()) == -TWO127 ==> Value() == 0
    {
      var dummy := new Int128(0, 0);
      var q := Div(b, dummy);
      Assign(q);
    }

    // the rest is stored over the dividend
    method ModAssign(b: Int128)
      requires b.Value() != 0 && b.Value() != -TWO127
      modifies this
      ensures old(Value()) != -TWO127 ==> exists q :: IsTruncated(old(Value()), old(b.Value()), q, Value())
      ensures old(Value()) == -TWO127 ==> Value() == -TWO127
    {
      var q := Div(b, this);
    }
  }

  // The loop that takes the divisor off the rest never ends for the divisor -2^127: the rest goes back and forth
  // between 0 and -2^127, and neither is less than the divisor.

  // The rest after n rounds with the divisor -2^127, starting from 0.
  function RestAfter(n: nat): int {
    if n == 0 then 0 else Wrap(RestAfter(n - 1) - -TWO127)
  }

  lemma {:induction false} RestAlternates(n: nat)
    ensures RestAfter(n) == if n % 2 == 0 then 0 else -TWO127
  {
    if n > 0 {
      RestAlternates(n - 1);
      if n % 2 == 0 {
        WrapSame(0);
      } else {
        WrapIs(-TWO127, TWO127, -1);
      }
    }
  }

  // In every round, and before the first, the rest in its two words is not less than the divisor.
  lemma LeastDivisorNeverEnds(n: nat, lo: Uint64, hi: Int64)
    requires Number(lo, hi) == RestAfter(n)
    ensures !Less(lo, hi, 0, -TWO63) && Number(0, -TWO63) == -TWO127
  {
    RestAlternates(n);
  }

  lemma NegatedMagnitude(x: int)
    requires InRange(x)
    ensures Wrap(-x) == if x == -TWO127 then -TWO127 else -x
  {
    if x == -TWO127 {
      WrapIs(-TWO127, TWO127, -1);
    } else {
      WrapSame(-x);
    }
  }

  lemma NextQuotient(y: int, i: nat)
    ensures y / Pow2(0) == y && y / Pow2(i + 1) == y / Pow2(i) / 2
  {
    DivTwice(y, Pow2(i), 2);
  }

  // x shifted by the position of each of the lowest n bits of y, added up.
  ghost function ShiftedSum(x: int, y: int, n: nat): int {
    if n == 0 then 0 else AddBit(ShiftedSum(x, y, n - 1), Bit(y, n - 1) == 1, x * Pow2(n - 1))
  }

  function AddBit(sum: int, bit: bool, x: int): int {
    if bit then sum + x else sum
  }

  lemma RoundParts(x: int, b: int, p: int, t: int, u: int, bit: int)
    requires t == 2 * u + bit
    ensures x * (b - u * (2 * p)) == x * (b - t * p) + bit * (x * p)
  {
    assert t * p == u * (2 * p) + bit * p;
    assert x * (b - u * (2 * p)) == x * (b - t * p + bit * p);
    assert x * (bit * p) == bit * (x * p);
  }

  lemma {:induction false} ShiftedSumIs(x: int, y: int, n: nat)
    ensures ShiftedSum(x, y, n) == x * (y - y / Pow2(n) * Pow2(n))
  {
    if n > 0 {
      ShiftedSumIs(x, y, n - 1);
      var p := Pow2(n - 1);
      DivTwice(y, p, 2);
      RoundParts(x, y, p, y / p, y / p / 2, y / p % 2);
    }
  }

  // Modulo 2^128, the shifts for all 128 bits of y add up to x times y, for negative y too.
  lemma ShiftedSumIsProduct(x: int, y: int)
    requires InRange(y)
    ensures Wrap(ShiftedSum(x, y, 128)) == Wrap(x * y)
  {
    ShiftedSumIs(x, y, 128);
    Pow2Words();
    var t := y / TWO128;
    assert x * (y - t * TWO128) == x * y + -(x * t) * TWO128;
    SameIf(x * (y - t * TWO128), x * y, -(x * t));
  }
}
