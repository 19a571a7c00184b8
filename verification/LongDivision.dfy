/** Division bit by bit, on numbers. */
module LongDivision {
  import opened Powers
  import opened TwosComplement

  // The bits of D from b on have been divided by S: the quotient so far is Q (in its place, q), the rest is r.
  ghost predicate Dividing(D: int, S: int, b: nat, Q: int, r: int, q: int) {
    && 0 < S < TWO127 && 0 <= D < TWO127
    && D / Pow2(b) == Q * S + r && 0 <= Q && 0 <= r && q == Q * Pow2(b)
  }

  lemma Started(D: int, S: int)
    requires 0 < S < TWO127 && 0 <= D < TWO127
    ensures Dividing(D, S, 128, 0, 0, 0)
  {
    Pow2Words();
    DivIs(D, TWO128, 0, D);
  }

  lemma PrefixBound(D: int, b: nat)
    requires 0 <= D
    ensures 0 <= D / Pow2(b) <= D
  {
    DivBounds(D, Pow2(b), D + 1);
  }

  lemma Pulled(D: int, S: int, b: nat, Q: int, r: int, q: int)
    requires Dividing(D, S, b, Q, r, q) && b > 0 && r < S
    ensures Dividing(D, S, b - 1, 2 * Q, 2 * r + Bit(D, b - 1), q)
    ensures 0 <= 2 * r + Bit(D, b - 1) < 2 * S && 2 * r + Bit(D, b - 1) < TWO127
  {
    var p, t := Pow2(b - 1), D / Pow2(b - 1);
    DivTwice(D, p, 2);
    assert t == 2 * (D / Pow2(b)) + t % 2;
    assert 2 * (Q * S) == 2 * Q * S;
    assert Q * (2 * p) == 2 * Q * p;
    PrefixBound(D, b - 1);
    MulOrder(S, 0, 2 * Q);
  }

  lemma RoomLeft(D: int, d: int, p: int, S: int, Q: int, r: int)
    requires p > 0 && S > 0 && Q >= 0 && r >= S && p * d <= D && d == Q * S + r
    ensures (Q + 1) * S == Q * S + S && (Q + 1) * p == Q * p + p && (Q + 1) * p <= D
  {
    MulOrder(Q + 1, 1, S);
    MulOrder(p, Q + 1, d);
  }

  lemma Subtracted(D: int, S: int, b: nat, Q: int, r: int, q: int)
    requires Dividing(D, S, b, Q, r, q) && r >= S
    ensures Dividing(D, S, b, Q + 1, r - S, q + Pow2(b)) && q + Pow2(b) < TWO127
  {
    DivMod(D, Pow2(b));
    RoomLeft(D, D / Pow2(b), Pow2(b), S, Q, r);
  }

  lemma NextPulled(D: int, S: int, b: nat, Q: int, r: int, q: int) returns (Q': int)
    requires Dividing(D, S, b, Q, r, q) && b > 0 && r < S
    ensures Dividing(D, S, b - 1, Q', 2 * r + Bit(D, b - 1), q) && Q' % 2 == 0
    ensures 0 <= 2 * r + Bit(D, b - 1) < 2 * S && 2 * r + Bit(D, b - 1) < TWO127
  {
    Pulled(D, S, b, Q, r, q);
    EvenPart(Q, 0);
    Q' := 2 * Q;
  }

  // The place for the next bit of the quotient is empty.
  lemma NextBitClear(Q: int, b: nat)
    requires Q % 2 == 0
    ensures Bit(Q * Pow2(b), b) == 0
  {
    DivIs(Q * Pow2(b), Pow2(b), Q, 0);
  }

  lemma NothingLeft(D: int, S: int, Q: int, r: int, q: int)
    requires Dividing(D, S, 0, Q, r, q)
    ensures D == q * S + r && 0 <= q
  {
  }

  lemma StillLess(D: int, S: int, b: nat, r: int)
    requires Dividing(D, S, b, 0, r, 0) && r < S <= D
    ensures b > 0
  {
  }

  // Division rounded toward zero: the rest is less than the divisor and has the sign of the dividend.
  predicate IsTruncated(a: int, d: int, q: int, r: int) {
    && a == q * d + r
    && (if d < 0 then -d else d) > (if r < 0 then -r else r)
    && (r == 0 || (r < 0 <==> a < 0))
  }

  lemma SignsRestored(a: int, d: int, q: int, r: int)
    requires d != 0 && 0 <= r < (if d < 0 then -d else d)
    requires (if a < 0 then -a else a) == q * (if d < 0 then -d else d) + r
    ensures IsTruncated(a, d, if (d < 0) != (a < 0) then -q else q, if a < 0 then -r else r)
  {
    assert (-q) * d == -(q * d) && q * -d == -(q * d);
  }

  lemma SignsDropped(a: int, d: int, q: int, r: int)
    requires IsTruncated(a, d, q, r)
    ensures (if a < 0 then -a else a) ==
      (if d < 0 then -d else d) * (if (a < 0) != (d < 0) then -q else q) + (if a < 0 then -r else r)
    ensures 0 <= (if a < 0 then -r else r) < (if d < 0 then -d else d)
  {
    assert (-d) * q == -(q * d) && (-d) * -q == q * d && d * -q == -(q * d);
  }

  // There is only one such division.
  lemma TruncatedIsUnique(a: int, d: int, q: int, r: int, q': int, r': int)
    requires IsTruncated(a, d, q, r) && IsTruncated(a, d, q', r')
    ensures q == q' && r == r'
  {
    SignsDropped(a, d, q, r);
    SignsDropped(a, d, q', r');
    var m, e := if d < 0 then -d else d, (a < 0) != (d < 0);
    OneQuotient(m, if e then -q else q, if a < 0 then -r else r, if e then -q' else q', if a < 0 then -r' else r');
  }
}
