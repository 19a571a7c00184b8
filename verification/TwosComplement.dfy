/** Arithmetic of two-word two's complement numbers. */
module TwosComplement {
  import opened Powers

  const TWO63: int := 0x8000_0000_0000_0000
  const TWO64: int := 0x1_0000_0000_0000_0000
  const TWO127: int := 0x8000_0000_0000_0000_0000_0000_0000_0000
  const TWO128: int := 0x1_0000_0000_0000_0000_0000_0000_0000_0000

  type Uint64 = x: int | 0 <= x < TWO64
  type Int64 = x: int | -TWO63 <= x < TWO63
  type Uint32 = x: int | 0 <= x < 0x1_0000_0000

  function Unsigned(x: int): Uint64 {
    x % TWO64
  }

  function Signed(x: int): Int64 {
    (x + TWO63) % TWO64 - TWO63
  }

  // The number two words stand for.
  function Number(lo: Uint64, hi: Int64): int {
    hi * TWO64 + lo
  }

  // The number in the range of 128-bit integers that equals x modulo 2^128.
  function Wrap(x: int): int {
    (x + TWO127) % TWO128 - TWO127
  }

  predicate InRange(x: int) {
    -TWO127 <= x < TWO127
  }

  // ---------- quotients ----------

  lemma MulOrder(p: int, a: int, b: int)
    requires p >= 0 && a <= b
    ensures p * a <= p * b
  {
    assert p * b - p * a == p * (b - a);
  }

  lemma OneQuotient(p: int, d: int, r: int, e: int, s: int)
    requires p * d + r == p * e + s && 0 <= r < p && 0 <= s < p
    ensures d == e && r == s
  {
    if d > e {
      MulOrder(p, e + 1, d);
    } else if d < e {
      MulOrder(p, d + 1, e);
    }
  }

  lemma DivIs(x: int, p: int, d: int, r: int)
    requires x == p * d + r && 0 <= r < p
    ensures x / p == d && x % p == r
  {
    OneQuotient(p, d, r, x / p, x % p);
  }

  lemma DivMod(x: int, p: int)
    requires p > 0
    ensures x == p * (x / p) + x % p && 0 <= x % p < p
  {
  }

  // ---------- modulo 2^128 ----------

  lemma NumberInRange(lo: Uint64, hi: Int64)
    ensures InRange(Number(lo, hi))
  {
  }

  lemma WrapIs(x: int, y: int, k: int)
    requires InRange(x) && x == y + k * TWO128
    ensures Wrap(y) == x
  {
    DivIs(y + TWO127, TWO128, -k, x + TWO127);
  }

  lemma WrapOff(y: int) returns (k: int)
    ensures Wrap(y) == y + k * TWO128 && InRange(Wrap(y))
  {
    k := -((y + TWO127) / TWO128);
  }

  lemma WrapSame(x: int)
    requires InRange(x)
    ensures Wrap(x) == x
  {
    WrapIs(x, x, 0);
  }

  lemma SameIf(x: int, y: int, k: int)
    requires x == y + k * TWO128
    ensures Wrap(x) == Wrap(y)
  {
    var j := WrapOff(x);
    assert Wrap(x) == y + (k + j) * TWO128;
    WrapIs(Wrap(x), y, k + j);
  }

  lemma WrapAdd(x: int, y: int)
    ensures Wrap(Wrap(x) + y) == Wrap(x + y)
  {
    var k := WrapOff(x);
    SameIf(Wrap(x) + y, x + y, k);
  }

  lemma WrapBoth(x: int, y: int)
    ensures Wrap(Wrap(x) + Wrap(y)) == Wrap(x + y)
  {
    WrapAdd(x, Wrap(y));
    WrapAdd(y, x);
  }

  lemma WrapMul(x: int, y: int)
    ensures Wrap(Wrap(x) * y) == Wrap(x * y)
  {
    var k := WrapOff(x);
    assert Wrap(x) * y == x * y + (k * y) * TWO128;
    SameIf(Wrap(x) * y, x * y, k * y);
  }

  lemma WrapNeg(x: int)
    ensures Wrap(-Wrap(x)) == Wrap(-x)
  {
    var k := WrapOff(x);
    SameIf(-Wrap(x), -x, -k);
  }

  lemma SignedOff(x: int) returns (k: int)
    ensures Signed(x) == x + k * TWO64
  {
    k := -((x + TWO63) / TWO64);
  }

  // ---------- addition and negation ----------

  function SumLo(lo: Uint64, lo': Uint64): Uint64 {
    Unsigned(lo + lo')
  }

  function SumHi(lo: Uint64, hi: Int64, lo': Uint64, hi': Int64): Int64 {
    var sum := Signed(hi + hi');
    if SumLo(lo, lo') < lo then Signed(sum + 1) else sum
  }

  lemma SumIsSum(lo: Uint64, hi: Int64, lo': Uint64, hi': Int64)
    ensures Number(SumLo(lo, lo'), SumHi(lo, hi, lo', hi')) == Wrap(Number(lo, hi) + Number(lo', hi'))
  {
    var carry := if lo + lo' < TWO64 then 0 else 1;
    assert SumLo(lo, lo') == lo + lo' - carry * TWO64;
    var k := SignedOff(hi + hi');
    var j := SignedOff(Signed(hi + hi') + 1);
    var off := if carry == 0 then k else k + j;
    assert SumHi(lo, hi, lo', hi') == hi + hi' + carry + off * TWO64;
    NumberInRange(SumLo(lo, lo'), SumHi(lo, hi, lo', hi'));
    assert TWO128 == TWO64 * TWO64;
    WrapIs(Number(SumLo(lo, lo'), SumHi(lo, hi, lo', hi')), Number(lo, hi) + Number(lo', hi'), off);
  }

  function NegLo(lo: Uint64): Uint64 {
    if lo == 0 then 0 else Unsigned(0 - lo)
  }

  function NegHi(lo: Uint64, hi: Int64): Int64 {
    if lo == 0 then Signed(0 - hi) else 0 - hi - 1
  }

  lemma NegIsNegative(lo: Uint64, hi: Int64)
    ensures Number(NegLo(lo), NegHi(lo, hi)) == Wrap(-Number(lo, hi))
  {
    NumberInRange(NegLo(lo), NegHi(lo, hi));
    assert TWO128 == TWO64 * TWO64;
    if lo == 0 {
      var k := SignedOff(0 - hi);
      WrapIs(Number(NegLo(lo), NegHi(lo, hi)), -Number(lo, hi), k);
    } else {
      assert Unsigned(0 - lo) == TWO64 - lo;
      WrapIs(Number(NegLo(lo), NegHi(lo, hi)), -Number(lo, hi), 0);
    }
  }

  // ---------- comparison ----------

  predicate Less(lo: Uint64, hi: Int64, lo': Uint64, hi': Int64) {
    if hi == hi' then (if hi < 0 then Signed(lo) < Signed(lo') else lo < lo') else hi < hi'
  }

  // Two negative numbers with the same high word and low words on different sides of 2^63 are compared the
  // wrong way round; all others are compared as numbers.
  lemma LessIsLess(lo: Uint64, hi: Int64, lo': Uint64, hi': Int64)
    ensures (Less(lo, hi, lo', hi') <==> Number(lo, hi) < Number(lo', hi')) <==>
      !(hi == hi' && hi < 0 && (lo < TWO63 <==> lo' >= TWO63))
  {
    assert lo < TWO63 ==> Signed(lo) == lo;
    assert lo >= TWO63 ==> Signed(lo) == lo - TWO64;
    assert lo' < TWO63 ==> Signed(lo') == lo';
    assert lo' >= TWO63 ==> Signed(lo') == lo' - TWO64;
  }

  // ---------- powers of two ----------

  lemma Pow2Double(n: nat, x: int)
    requires Pow2(n) == x
    ensures Pow2(n + n) == x * x
  {
    Pow2Sum(n, n);
  }

  lemma Pow2Words()
    ensures Pow2(63) == TWO63 && Pow2(64) == TWO64 && Pow2(127) == TWO127 && Pow2(128) == TWO128
  {
    assert Pow2(2) == 4;
    Pow2Double(2, 4);
    Pow2Double(4, 16);
    Pow2Double(8, 0x100);
    Pow2Double(16, 0x1_0000);
    Pow2Double(32, 0x1_0000_0000);
    Pow2Double(64, TWO64);
    assert Pow2(64) == 2 * Pow2(63);
    assert Pow2(128) == 2 * Pow2(127);
  }

  lemma Pow2Split(n: nat)
    requires n <= 64
    ensures Pow2(n) * Pow2(64 - n) == TWO64
  {
    Pow2Words();
    Pow2Sum(n, 64 - n);
  }

  // ---------- shifting right ----------

  lemma DivSum(x: int, y: int, p: int)
    requires p > 0
    ensures (p * x + y) / p == x + y / p
  {
    assert p * (x + y / p) == p * x + p * (y / p);
    DivIs(p * x + y, p, x + y / p, y % p);
  }

  lemma Nested(x: int, p: int, q: int, a: int, b: int, c: int, d: int)
    requires x == p * a + b && 0 <= b < p && a == q * c + d && 0 <= d < q
    ensures p * q > 0 && x == (p * q) * c + (p * d + b) && 0 <= p * d + b < p * q
  {
    assert p * (q * c + d) == (p * q) * c + p * d;
    MulOrder(p, 0, d);
    MulOrder(p, d + 1, q);
  }

  lemma DivTwice(x: int, p: int, q: int)
    requires p > 0 && q > 0
    ensures p * q > 0 && x / (p * q) == (x / p) / q
  {
    var a := x / p;
    Nested(x, p, q, a, x % p, a / q, a % q);
    DivIs(x, p * q, a / q, p * (a % q) + x % p);
  }

  lemma QuotientBounds(p: int, d: int, r: int, m: int)
    requires 0 <= r < p && m > 0 && -m <= p * d + r < m
    ensures -m <= d < m && (p * d + r < 0 <==> d < 0)
  {
    if d >= 0 {
      MulOrder(d, 1, p);
    } else {
      MulOrder(-d, 1, p);
      MulOrder(-d - 1, 1, p);
      assert p * d == -(-d * p) && p * d + p == -((-d - 1) * p);
    }
  }

  lemma DivBounds(x: int, p: int, m: int)
    requires p > 0 && m > 0 && -m <= x < m
    ensures -m <= x / p < m && (x < 0 <==> x / p < 0)
  {
    assert x == p * (x / p) + x % p;
    QuotientBounds(p, x / p, x % p, m);
  }

  function ShrLo(lo: Uint64, hi: Int64, n: nat): Uint64 {
    if n >= 128 then Unsigned(if hi < 0 then -1 else 0)
    else if n >= 64 then Unsigned(hi / Pow2(n - 64))
    else Unsigned(lo / Pow2(n) + (hi % Pow2(n)) * Pow2(64 - n))
  }

  function ShrHi(hi: Int64, n: nat): Int64 {
    if n >= 64 then (if hi < 0 then -1 else 0) else Signed(hi / Pow2(n))
  }

  lemma ShrIsQuotient(lo: Uint64, hi: Int64, n: nat)
    ensures Number(ShrLo(lo, hi, n), ShrHi(hi, n)) == Number(lo, hi) / Pow2(n)
  {
    if n < 64 {
      ShrWithin(lo, hi, n);
    } else {
      ShrAcross(lo, hi, n - 64);
    }
  }

  lemma HighWord(lo: Uint64, hi: Int64, m: nat)
    ensures Number(lo, hi) / Pow2(m + 64) == hi / Pow2(m)
  {
    Pow2Words();
    Pow2Sum(64, m);
    DivTwice(Number(lo, hi), TWO64, Pow2(m));
    DivIs(Number(lo, hi), TWO64, hi, lo);
  }

  lemma ShrAcross(lo: Uint64, hi: Int64, m: nat)
    ensures Number(ShrLo(lo, hi, m + 64), ShrHi(hi, m + 64)) == Number(lo, hi) / Pow2(m + 64)
  {
    HighWord(lo, hi, m);
    DivBounds(hi, Pow2(m), TWO63);
    if m >= 64 {
      ShrAll(hi, m);
    }
  }

  lemma ShrAll(hi: Int64, m: nat)
    requires m >= 64
    ensures hi / Pow2(m) == if hi < 0 then -1 else 0
  {
    Pow2Words();
    Pow2Sum(64, m - 64);
    MulOrder(TWO64, 1, Pow2(m - 64));
    if hi < 0 {
      DivIs(hi, Pow2(m), -1, hi + Pow2(m));
    } else {
      DivIs(hi, Pow2(m), 0, hi);
    }
  }

  lemma UnsignedSame(x: int)
    requires 0 <= x < TWO64
    ensures Unsigned(x) == x
  {
  }

  lemma SignedSame(x: int)
    requires -TWO63 <= x < TWO63
    ensures Signed(x) == x
  {
  }

  lemma ShrWithin(lo: Uint64, hi: Int64, n: nat)
    requires n < 64
    ensures Number(ShrLo(lo, hi, n), ShrHi(hi, n)) == Number(lo, hi) / Pow2(n)
  {
    Pow2Split(n);
    ShrParts(lo, hi, Pow2(n), Pow2(64 - n));
  }

  lemma ShrParts(lo: Uint64, hi: Int64, p: int, q: int)
    requires p > 0 && q > 0 && p * q == TWO64
    ensures Number(Unsigned(lo / p + (hi % p) * q), Signed(hi / p)) == Number(lo, hi) / p
  {
    var l, r, H, h := lo / p, lo % p, hi / p, hi % p;
    DivBounds(hi, p, TWO63);
    Packed(l, r, h, p, q);
    UnsignedSame(l + h * q);
    SignedSame(H);
    Unpacked(lo, hi, H, h, l, r, p, q);
    DivIs(Number(lo, hi), p, H * TWO64 + h * q + l, r);
  }

  lemma Packed(l: int, r: int, h: int, p: int, q: int)
    requires p * q == TWO64 && 0 <= h < p && 0 <= r < p && 0 <= p * l + r < TWO64 && q > 0
    ensures 0 <= l + h * q < TWO64
  {
    if l >= q {
      MulOrder(p, q, l);
      assert false;
    }
    if l < 0 {
      MulOrder(p, l, -1);
      assert false;
    }
    MulOrder(q, 0, h);
    MulOrder(q, h, p - 1);
    assert q * (p - 1) == p * q - q;
  }

  lemma Unpacked(lo: int, hi: int, H: int, h: int, l: int, r: int, p: int, q: int)
    requires p * q == TWO64 && hi == p * H + h && lo == p * l + r
    ensures hi * TWO64 + lo == p * (H * TWO64 + h * q + l) + r
  {
    assert p * (H * TWO64) == p * H * TWO64;
    assert p * (h * q) == h * (p * q);
    assert p * (H * TWO64 + h * q + l) == p * (H * TWO64) + p * (h * q) + p * l;
  }

  // ---------- shifting left ----------

  function ShlLo(lo: Uint64, n: nat): Uint64 {
    if n >= 64 then 0 else Unsigned(lo * Pow2(n))
  }

  // The high bits of the low word fill the place that the high word leaves.
  function ShlHi(lo: Uint64, hi: Int64, n: nat): Int64 {
    if n >= 128 then 0
    else if n >= 64 then Signed(lo * Pow2(n - 64))
    else Signed(Signed(hi * Pow2(n)) + lo / Pow2(64 - n))
  }

  lemma ShlIsProduct(lo: Uint64, hi: Int64, n: nat)
    ensures Number(ShlLo(lo, n), ShlHi(lo, hi, n)) == Wrap(Number(lo, hi) * Pow2(n))
  {
    if n >= 128 {
      ShlAll(Number(lo, hi), n);
    } else if n >= 64 {
      ShlAcross(lo, hi, n - 64);
    } else {
      ShlWithin(lo, hi, n);
    }
  }

  lemma ShlAll(x: int, n: nat)
    requires n >= 128
    ensures Wrap(x * Pow2(n)) == 0
  {
    Pow2Words();
    Pow2Sum(128, n - 128);
    var k := x * Pow2(n - 128);
    assert x * (TWO128 * Pow2(n - 128)) == k * TWO128;
    WrapIs(0, x * Pow2(n), -k);
  }

  lemma ShlAcross(lo: Uint64, hi: Int64, m: nat)
    requires m < 64
    ensures Number(0, Signed(lo * Pow2(m))) == Wrap(Number(lo, hi) * Pow2(m + 64))
  {
    Pow2Words();
    Pow2Sum(m, 64);
    var p := Pow2(m);
    var k := SignedOff(lo * p);
    ShiftedAcross(lo, hi, p, k);
    NumberInRange(0, Signed(lo * p));
    WrapIs(Number(0, Signed(lo * p)), Number(lo, hi) * Pow2(m + 64), k - hi * p);
  }

  lemma ShiftedAcross(lo: int, hi: int, p: int, k: int)
    ensures (lo * p + k * TWO64) * TWO64 == (hi * TWO64 + lo) * (p * TWO64) + (k - hi * p) * TWO128
  {
    var a, b := hi * p, lo * p;
    assert (hi * TWO64 + lo) * p == a * TWO64 + b;
    assert (hi * TWO64 + lo) * (p * TWO64) == (a * TWO64 + b) * TWO64;
  }

  lemma ShlWithin(lo: Uint64, hi: Int64, n: nat)
    requires n < 64
    ensures Number(ShlLo(lo, n), ShlHi(lo, hi, n)) == Wrap(Number(lo, hi) * Pow2(n))
  {
    Pow2Split(n);
    DivMod(lo, Pow2(64 - n));
    ShlParts(lo, hi, Pow2(n), Pow2(64 - n), lo / Pow2(64 - n), lo % Pow2(64 - n));
  }

  lemma ShlParts(lo: Uint64, hi: Int64, p: int, q: int, t: int, u: int)
    requires p > 0 && p * q == TWO64 && lo == q * t + u && 0 <= u < q
    ensures Number(Unsigned(lo * p), Signed(Signed(hi * p) + t)) == Wrap(Number(lo, hi) * p)
  {
    var i := SignedOff(hi * p);
    var j := SignedOff(Signed(hi * p) + t);
    LowShifted(lo, p, q, t, u);
    DivIs(lo * p, TWO64, t, u * p);
    ShiftedWithin(lo, hi, p, t, u * p, i + j);
    var v := Number(Unsigned(lo * p), Signed(Signed(hi * p) + t));
    NumberInRange(Unsigned(lo * p), Signed(Signed(hi * p) + t));
    WrapIs(v, Number(lo, hi) * p, i + j);
  }

  lemma LowShifted(lo: int, p: int, q: int, t: int, u: int)
    requires p > 0 && p * q == TWO64 && lo == q * t + u && 0 <= u < q
    ensures lo * p == TWO64 * t + u * p && 0 <= u * p < TWO64
  {
    assert (q * t + u) * p == (p * q) * t + u * p;
    MulOrder(p, 0, u);
    MulOrder(p, u + 1, q);
  }

  lemma ShiftedWithin(lo: int, hi: int, p: int, t: int, v: int, k: int)
    requires lo * p == TWO64 * t + v
    ensures (hi * p + t + k * TWO64) * TWO64 + v == (hi * TWO64 + lo) * p + k * TWO128
  {
    assert (hi * TWO64 + lo) * p == hi * p * TWO64 + lo * p;
  }

  // ---------- bits ----------

  predicate TestBit(lo: Uint64, hi: Int64, n: nat) {
    if n >= 128 then hi < 0
    else if n < 64 then lo / Pow2(n) % 2 == 1
    else hi / Pow2(n - 64) % 2 == 1
  }

  // The n-th bit of a number.
  function Bit(x: int, n: nat): int {
    x / Pow2(n) % 2
  }

  lemma BitRange(x: int, n: nat)
    ensures Bit(x, n) == 0 || Bit(x, n) == 1
  {
  }

  lemma TestBitIsBit(lo: Uint64, hi: Int64, n: nat)
    ensures TestBit(lo, hi, n) <==> Bit(Number(lo, hi), n) == 1
  {
    if n < 64 {
      var q := Pow2(63 - n);
      Pow2Split(n);
      LowBits(lo, hi, n, q);
    } else {
      HighWord(lo, hi, n - 64);
      if n >= 128 {
        ShrAll(hi, n - 64);
      }
    }
  }

  lemma LowBits(lo: Uint64, hi: Int64, n: nat, q: int)
    requires Pow2(n) * (2 * q) == TWO64
    ensures Number(lo, hi) / Pow2(n) % 2 == lo / Pow2(n) % 2
  {
    var p, t := Pow2(n), lo / Pow2(n);
    assert p * (2 * q * hi) == hi * (p * (2 * q));
    DivSum(2 * q * hi, lo, p);
    EvenPart(q * hi, t);
    assert 2 * q * hi == 2 * (q * hi);
  }

  lemma EvenPart(x: int, y: int)
    ensures (2 * x + y) % 2 == y % 2
  {
  }

  function SetLo(lo: Uint64, n: nat, val: bool): Uint64 {
    if n >= 64 || (lo / Pow2(n) % 2 == 1) == val then lo
    else Unsigned(if val then lo + Pow2(n) else lo - Pow2(n))
  }

  function SetHi(hi: Int64, n: nat, val: bool): Int64 {
    if n < 64 || n >= 128 || (hi / Pow2(n - 64) % 2 == 1) == val then hi
    else Signed(if val then hi + Pow2(n - 64) else hi - Pow2(n - 64))
  }

  lemma RoomForBit(lo: Uint64, n: nat, t: int, r: int, q: int)
    requires Pow2(n) * (2 * q) == TWO64 && lo == Pow2(n) * t + r && 0 <= r < Pow2(n)
    ensures t % 2 == 0 ==> lo + Pow2(n) < TWO64
    ensures t % 2 == 1 ==> lo >= Pow2(n)
  {
    var p := Pow2(n);
    if t >= 2 * q {
      MulOrder(p, 2 * q, t);
    } else if t % 2 == 0 {
      MulOrder(p, t + 2, 2 * q);
    }
    if t % 2 == 1 && t >= 1 {
      MulOrder(p, 1, t);
    } else if t < 0 {
      MulOrder(p, t, -1);
    }
  }

  lemma SetLowBit(lo: Uint64, hi: Int64, n: nat, val: bool)
    requires n < 64 && (lo / Pow2(n) % 2 == 1) != val
    ensures Number(SetLo(lo, n, val), hi) == Number(lo, hi) + (if val then Pow2(n) else -Pow2(n))
  {
    Pow2Split(n);
    DivMod(lo, Pow2(n));
    RoomForBit(lo, n, lo / Pow2(n), lo % Pow2(n), Pow2(63 - n));
    UnsignedSame(if val then lo + Pow2(n) else lo - Pow2(n));
  }

  lemma HighChanged(lo: Uint64, hi: Int64, change: int)
    ensures Number(lo, Signed(hi + change)) == Wrap(Number(lo, hi) + change * TWO64)
  {
    var k := SignedOff(hi + change);
    NumberInRange(lo, Signed(hi + change));
    WrapIs(Number(lo, Signed(hi + change)), Number(lo, hi) + change * TWO64, k);
  }

  lemma SetHighBit(lo: Uint64, hi: Int64, m: nat, val: bool)
    requires m < 64 && (hi / Pow2(m) % 2 == 1) != val
    ensures Number(lo, SetHi(hi, m + 64, val)) == Wrap(Number(lo, hi) + (if val then Pow2(m + 64) else -Pow2(m + 64)))
  {
    Pow2Words();
    Pow2Sum(m, 64);
    HighChanged(lo, hi, if val then Pow2(m) else -Pow2(m));
  }

  // Setting the n-th bit adds or takes away 2^n if it changes.
  lemma SetBitAdds(lo: Uint64, hi: Int64, n: nat, val: bool)
    requires n < 128
    ensures TestBit(lo, hi, n) == val ==> SetLo(lo, n, val) == lo && SetHi(hi, n, val) == hi
    ensures TestBit(lo, hi, n) != val ==>
      Number(SetLo(lo, n, val), SetHi(hi, n, val)) == Wrap(Number(lo, hi) + (if val then Pow2(n) else -Pow2(n)))
  {
    if TestBit(lo, hi, n) != val {
      if n < 64 {
        SetLowBit(lo, hi, n, val);
        NumberInRange(SetLo(lo, n, val), hi);
        WrapSame(Number(SetLo(lo, n, val), hi));
      } else {
        SetHighBit(lo, hi, n - 64, val);
      }
    }
  }
}
