/** Sequences of bits, and bits in a word. */
module Bits {
  import opened Powers

  type Word = bv32

  // ---------- what vectors of bits mean ----------

  // The number with the given bits, the lowest first.
  function Value(s: seq<bool>): nat {
    if s == [] then 0 else (if s[0] then 1 else 0) + 2 * Value(s[1..])
  }

  function Reversed(s: seq<bool>): (r: seq<bool>)
    ensures |r| == |s| && forall i :: 0 <= i < |s| ==> r[i] == s[|s| - 1 - i]
  {
    if s == [] then [] else [s[|s| - 1]] + Reversed(s[..|s| - 1])
  }

  // In how many places two vectors differ.
  function Differences(s: seq<bool>, t: seq<bool>): nat
    requires |s| == |t|
  {
    if s == [] then 0
    else (if s[0] != t[0] then 1 else 0) + Differences(s[1..], t[1..])
  }

  function Zeros(n: nat): seq<bool> {
    seq(n, _ => false)
  }

  datatype Op = Append(value: bool) | Set(pos: nat, value: bool) | Toggle(pos: nat)

  // Setting a bit beyond the end fills the gap with zeros.
  function Put(s: seq<bool>, pos: nat, value: bool): seq<bool> {
    if pos < |s| then s[pos := value] else s + Zeros(pos - |s|) + [value]
  }

  // Only a bit that is there can be toggled.
  function Apply(s: seq<bool>, op: Op): seq<bool> {
    match op
    case Append(value) => s + [value]
    case Set(pos, value) => Put(s, pos, value)
    case Toggle(pos) => if pos < |s| then s[pos := !s[pos]] else s
  }

  function ApplyAll(s: seq<bool>, ops: seq<Op>): seq<bool> {
    if ops == [] then s else Apply(ApplyAll(s, ops[..|ops| - 1]), ops[|ops| - 1])
  }

  // ---------- bits in a word ----------

  function Xor(x: Word, y: Word): Word {
    x ^ y
  }

  function Plus(x: Word, y: Word): Word {
    x + y
  }

  function Up(m: Word): Word {
    m << 1
  }

  function Down(x: Word): Word {
    x >> 1
  }

  predicate IsOdd(x: Word) {
    x & 1 == 1
  }

  // 1 shifted left by i
  function Mask(i: nat): Word {
    if i == 0 then 1 else Up(Mask(i - 1))
  }

  // Is there a bit in common?
  predicate Meet(x: Word, m: Word) {
    x & m != 0
  }

  predicate Bit(x: Word, i: nat) {
    Meet(x, Mask(i))
  }

  predicate IsOneBit(m: Word) {
    m != 0 && m & (m - 1) == 0
  }

  lemma UpBy8(m: Word)
    ensures Up(m) << 8 == Up(m << 8)
  {
  }

  lemma {:induction false} MaskPlus8(r: nat)
    ensures Mask(r + 8) == Mask(r) << 8
  {
    if r > 0 {
      MaskPlus8(r - 1);
      UpBy8(Mask(r - 1));
      assert Mask(r) == Up(Mask(r - 1));
      assert Mask(r + 8) == Up(Mask(r + 7));
    } else {
      assert Mask(8) == 0x100;
    }
  }

  lemma SmallMask(r: nat)
    requires r < 8
    ensures IsOneBit(Mask(r)) && Mask(r) <= 0x80 && (r < 7 ==> Mask(r) <= 0x40)
  {
    assert Mask(0) == 1 && Mask(1) == 2 && Mask(2) == 4 && Mask(3) == 8;
    assert Mask(4) == 0x10 && Mask(5) == 0x20 && Mask(6) == 0x40 && Mask(7) == 0x80;
  }

  lemma MaskIsOneBit(i: nat)
    requires i < 32
    ensures IsOneBit(Mask(i)) && (i < 31 ==> Mask(i) < 0x8000_0000)
  {
    SmallMask(i % 8);
    MaskPlus8(i % 8);
    MaskPlus8(i % 8 + 8);
    MaskPlus8(i % 8 + 16);
  }

  lemma UpGrows(m: Word)
    requires m != 0 && m < 0x8000_0000
    ensures m < Up(m)
  {
  }

  lemma {:induction false} MasksDiffer(i: nat, j: nat)
    requires i < j < 32
    ensures Mask(i) < Mask(j)
    decreases j
  {
    MaskIsOneBit(j - 1);
    UpGrows(Mask(j - 1));
    if i < j - 1 {
      MasksDiffer(i, j - 1);
    }
  }

  lemma SameMask(i: nat, j: nat)
    requires i < 32 && j < 32
    ensures IsOneBit(Mask(i)) && IsOneBit(Mask(j)) && (Mask(i) == Mask(j) <==> i == j)
  {
    MaskIsOneBit(i);
    MaskIsOneBit(j);
    if i < j {
      MasksDiffer(i, j);
    } else if j < i {
      MasksDiffer(j, i);
    }
  }

  // x with the bit of the mask set or cleared, or turned over
  function With(x: Word, m: Word, value: bool): Word {
    if value then x | m else x & !m
  }

  function Toggled(x: Word, m: Word): Word {
    x ^ m
  }

  lemma MeetWith(x: Word, p: Word, m: Word, value: bool)
    requires IsOneBit(p) && IsOneBit(m)
    ensures m == p ==> (Meet(With(x, p, value), m) <==> value)
    ensures m != p ==> (Meet(With(x, p, value), m) <==> Meet(x, m))
  {
  }

  lemma MeetToggled(x: Word, p: Word, m: Word)
    requires IsOneBit(p) && IsOneBit(m)
    ensures m == p ==> (Meet(Toggled(x, p), m) <==> !Meet(x, m))
    ensures m != p ==> (Meet(Toggled(x, p), m) <==> Meet(x, m))
  {
  }

  lemma BitSet(x: Word, pos: nat, value: bool, i: nat)
    requires pos < 32 && i < 32
    ensures i == pos ==> (Bit(With(x, Mask(pos), value), i) <==> value)
    ensures i != pos ==> (Bit(With(x, Mask(pos), value), i) <==> Bit(x, i))
  {
    SameMask(i, pos);
    MeetWith(x, Mask(pos), Mask(i), value);
  }

  lemma BitToggled(x: Word, pos: nat, i: nat)
    requires pos < 32 && i < 32
    ensures i == pos ==> (Bit(Toggled(x, Mask(pos)), i) <==> !Bit(x, i))
    ensures i != pos ==> (Bit(Toggled(x, Mask(pos)), i) <==> Bit(x, i))
  {
    SameMask(i, pos);
    MeetToggled(x, Mask(pos), Mask(i));
  }

  lemma MeetDown(x: Word, m: Word)
    ensures Meet(Down(x), m) <==> Meet(x, Up(m))
  {
  }

  lemma BitBelow(x: Word, i: nat)
    ensures Bit(Down(x), i) <==> Bit(x, i + 1)
  {
    MeetDown(x, Mask(i));
  }

  lemma OddBit(x: Word)
    ensures Bit(x, 0) <==> IsOdd(x)
  {
  }

  // The first n bits of a word.
  function BitsOf(x: Word, n: nat): (s: seq<bool>)
    ensures |s| == n
  {
    if n == 0 then [] else [IsOdd(x)] + BitsOf(Down(x), n - 1)
  }

  lemma {:induction false} BitsOfAt(x: Word, n: nat, i: nat)
    requires i < n
    ensures BitsOf(x, n)[i] <==> Bit(x, i)
  {
    if i > 0 {
      BitsOfAt(Down(x), n - 1, i - 1);
      BitBelow(x, i - 1);
    } else {
      OddBit(x);
    }
  }

  // No bit from n on.
  ghost predicate IsClean(x: Word, n: nat) {
    forall i :: n <= i < 32 ==> !Bit(x, i)
  }

  // x is zero after n shifts.
  predicate ShiftsOut(x: Word, n: nat) {
    if n == 0 then x == 0 else ShiftsOut(Down(x), n - 1)
  }

  lemma NothingLeft(x: Word)
    requires !IsOdd(x) && Down(x) == 0
    ensures x == 0
  {
  }

  lemma {:induction false} NoBitsIsZero(x: Word, k: nat)
    requires ShiftsOut(x, k) && forall i :: 0 <= i < k ==> !Bit(x, i)
    ensures x == 0
    decreases k
  {
    if k > 0 {
      BitsBelow(x);
      NoBitsIsZero(Down(x), k - 1);
      OddBit(x);
      NothingLeft(x);
    }
  }

  lemma BitsBelow(x: Word)
    ensures forall i: nat {:trigger Bit(Down(x), i)} :: Bit(Down(x), i) <==> Bit(x, i + 1)
  {
    forall i: nat {:trigger Bit(Down(x), i)}
      ensures Bit(Down(x), i) <==> Bit(x, i + 1)
    {
      BitBelow(x, i);
    }
  }

  function Shifted(x: Word, n: nat): Word {
    if n == 0 then x else Shifted(Down(x), n - 1)
  }

  lemma {:induction false} ShiftedSum(x: Word, m: nat, n: nat)
    ensures Shifted(x, m + n) == Shifted(Shifted(x, m), n)
  {
    if m > 0 {
      ShiftedSum(Down(x), m - 1, n);
    }
  }

  function By4(x: Word): Word {
    x >> 4
  }

  function By8(x: Word): Word {
    x >> 8
  }

  lemma FourDowns(x: Word)
    ensures Down(Down(Down(Down(x)))) == By4(x)
  {
  }

  lemma TwiceBy4(x: Word)
    ensures By4(By4(x)) == By8(x)
  {
  }

  lemma ShiftedBy4(x: Word)
    ensures Shifted(x, 4) == By4(x)
  {
    ShiftedSum(x, 2, 2);
    ShiftedTwice(x);
    ShiftedTwice(Down(Down(x)));
    FourDowns(x);
  }

  lemma ShiftedBy8(x: Word)
    ensures Shifted(x, 8) == By8(x)
  {
    ShiftedSum(x, 4, 4);
    ShiftedBy4(x);
    ShiftedBy4(By4(x));
    TwiceBy4(x);
  }

  lemma ShiftedTwice(x: Word)
    ensures Shifted(x, 2) == Down(Down(x))
  {
    var one: nat, zero: nat := 1, 0;
    assert Shifted(x, 2) == Shifted(Down(x), one) == Shifted(Down(Down(x)), zero);
  }

  lemma {:induction false} ShiftsOutIs(x: Word, n: nat)
    ensures ShiftsOut(x, n) <==> Shifted(x, n) == 0
  {
    if n > 0 {
      ShiftsOutIs(Down(x), n - 1);
    }
  }

  lemma ShiftAllOut(x: Word)
    ensures By8(By8(By8(By8(x)))) == 0
  {
  }

  lemma AllShiftOut(x: Word)
    ensures ShiftsOut(x, 32)
  {
    ShiftedSum(x, 8, 24);
    ShiftedSum(By8(x), 8, 16);
    ShiftedSum(By8(By8(x)), 8, 8);
    ShiftedBy8(x);
    ShiftedBy8(By8(x));
    ShiftedBy8(By8(By8(x)));
    ShiftedBy8(By8(By8(By8(x))));
    ShiftAllOut(x);
    ShiftsOutIs(x, 32);
  }

  lemma {:induction false} CleanShiftsOut(x: Word, n: nat, width: nat)
    requires n <= width && ShiftsOut(x, width) && forall i :: n <= i < width ==> !Bit(x, i)
    ensures ShiftsOut(x, n)
    decreases n
  {
    if n == 0 {
      NoBitsIsZero(x, width);
    } else {
      BitsBelow(x);
      CleanShiftsOut(Down(x), n - 1, width - 1);
    }
  }

  lemma ValueStep(low: bool, s: seq<bool>)
    ensures Value([low] + s) == (if low then 1 else 0) + 2 * Value(s)
  {
    assert ([low] + s)[1..] == s;
  }

  lemma NatOfDoubled(y: Word)
    requires y < 0x8000_0000
    ensures (y << 1) as nat == 2 * (y as nat)
  {
  }

  lemma NatOfDoubledPlus(y: Word)
    requires y < 0x8000_0000
    ensures ((y << 1) | 1) as nat == 2 * (y as nat) + 1
  {
  }

  lemma DownIsSmall(x: Word)
    ensures x >> 1 < 0x8000_0000
  {
  }

  lemma OddIs(x: Word)
    requires x & 1 == 1
    ensures x == ((x >> 1) << 1) | 1
  {
  }

  lemma EvenIs(x: Word)
    requires x & 1 != 1
    ensures x == (x >> 1) << 1
  {
  }

  lemma NatOfWord(x: Word)
    ensures x as nat == (if IsOdd(x) then 1 else 0) + 2 * (Down(x) as nat)
  {
    DownIsSmall(x);
    if IsOdd(x) {
      OddIs(x);
      NatOfDoubledPlus(Down(x));
    } else {
      EvenIs(x);
      NatOfDoubled(Down(x));
    }
  }

  lemma NatOfZero()
    ensures (0 as Word) as nat == 0
  {
  }

  lemma ValueCons(x: Word, tail: seq<bool>)
    requires Value(tail) == Down(x) as nat
    ensures Value([IsOdd(x)] + tail) == x as nat
  {
    ValueStep(IsOdd(x), tail);
    NatOfWord(x);
  }

  lemma {:induction false} ValueOfShifting(x: Word, n: nat)
    requires ShiftsOut(x, n)
    ensures Value(BitsOf(x, n)) == x as nat
  {
    if n > 0 {
      ValueOfShifting(Down(x), n - 1);
      ValueCons(x, BitsOf(Down(x), n - 1));
    } else {
      NatOfZero();
    }
  }

  // A word without other bits is the number its first n bits denote.
  lemma ValueOfBits(x: Word, n: nat)
    requires n <= 32 && IsClean(x, n)
    ensures Value(BitsOf(x, n)) == x as nat
  {
    AllShiftOut(x);
    CleanShiftsOut(x, n, 32);
    ValueOfShifting(x, n);
  }

  // ---------- numbers by adding powers of two ----------

  const TWO32: nat := 0x1_0000_0000

  // A new highest bit adds its power of two, if it is set.
  lemma {:induction false} ValueWith(s: seq<bool>, bit: bool)
    ensures Value(s + [bit]) == Value(s) + (if bit then Pow2(|s|) else 0)
  {
    if s == [] {
      assert s + [bit] == [bit];
      assert [bit][1..] == [];
    } else {
      assert (s + [bit])[0] == s[0] && (s + [bit])[1..] == s[1..] + [bit];
      ValueWith(s[1..], bit);
    }
  }

  // The sums are kept modulo 2^32.
  lemma SumModulo(x: int, y: int)
    ensures (x % TWO32 + y % TWO32) % TWO32 == (x + y) % TWO32
    ensures (x % TWO32 * 2) % TWO32 == (x * 2) % TWO32
  {
    var p, q := x / TWO32, y / TWO32;
    assert x == TWO32 * p + x % TWO32 && y == TWO32 * q + y % TWO32;
    SameModulo(x % TWO32 + y % TWO32, x + y, p + q);
    SameModulo(x % TWO32 * 2, x * 2, 2 * p);
  }

  lemma SameModulo(a: int, b: int, k: int)
    requires b == a + TWO32 * k
    ensures a % TWO32 == b % TWO32
  {
    assert b / TWO32 - k == a / TWO32;
  }

  // A round of the loops that add powers of two: bit k of s is next.
  lemma NextPower(s: seq<bool>, k: nat, dec: nat, power: nat)
    requires k < |s| && dec == Value(s[..k]) % TWO32 && power == Pow2(k) % TWO32
    ensures (if s[k] then (dec + power) % TWO32 else dec) == Value(s[..k + 1]) % TWO32
    ensures power * 2 % TWO32 == Pow2(k + 1) % TWO32
  {
    assert s[..k + 1] == s[..k] + [s[k]];
    ValueWith(s[..k], s[k]);
    SumModulo(Value(s[..k]), Pow2(k));
    SumModulo(Pow2(k), 0);
  }

  // ---------- differences ----------

  function CountTrue(s: seq<bool>): nat {
    if s == [] then 0 else (if s[0] then 1 else 0) + CountTrue(s[1..])
  }

  function Differing(s: seq<bool>, t: seq<bool>): seq<bool>
    requires |s| == |t|
  {
    seq(|s|, i requires 0 <= i < |s| => s[i] != t[i])
  }

  lemma {:induction false} DifferencesAreCounted(s: seq<bool>, t: seq<bool>)
    requires |s| == |t|
    ensures Differences(s, t) == CountTrue(Differing(s, t))
  {
    if s != [] {
      DifferencesAreCounted(s[1..], t[1..]);
      assert Differing(s, t)[1..] == Differing(s[1..], t[1..]);
    }
  }

  lemma XorStep(x: Word, y: Word)
    ensures IsOdd(Xor(x, y)) <==> IsOdd(x) != IsOdd(y)
    ensures Down(Xor(x, y)) == Xor(Down(x), Down(y))
  {
  }

  lemma DifferingStep(a: bool, b: bool, s: seq<bool>, t: seq<bool>)
    requires |s| == |t|
    ensures [a != b] + Differing(s, t) == Differing([a] + s, [b] + t)
  {
  }

  // What a word shows when it is shifted: its lowest bit, n times.
  function Shown<T>(odd: T -> bool, down: T -> T, x: T, n: nat): (s: seq<bool>)
    ensures |s| == n
  {
    if n == 0 then [] else [odd(x)] + Shown(odd, down, down(x), n - 1)
  }

  lemma {:induction false} BitsAreShown(x: Word, n: nat)
    ensures BitsOf(x, n) == Shown(IsOdd, Down, x, n)
  {
    if n > 0 {
      BitsAreShown(Down(x), n - 1);
    }
  }

  // Any operation that takes the lowest bits apart and shifts both words takes all bits apart.
  lemma {:induction false} ShownDiffers<T(!new)>(odd: T -> bool, down: T -> T, xor: (T, T) -> T, x: T, y: T, n: nat)
    requires forall a, b {:trigger xor(a, b)} ::
      (odd(xor(a, b)) <==> odd(a) != odd(b)) && down(xor(a, b)) == xor(down(a), down(b))
    ensures Shown(odd, down, xor(x, y), n) == Differing(Shown(odd, down, x, n), Shown(odd, down, y, n))
  {
    if n > 0 {
      ShownDiffers(odd, down, xor, down(x), down(y), n - 1);
      DifferingStep(odd(x), odd(y), Shown(odd, down, down(x), n - 1), Shown(odd, down, down(y), n - 1));
    }
  }

  lemma XorDiffers(x: Word, y: Word, n: nat)
    ensures BitsOf(Xor(x, y), n) == Differing(BitsOf(x, n), BitsOf(y, n))
  {
    forall a: Word, b: Word {:trigger Xor(a, b)}
      ensures (IsOdd(Xor(a, b)) <==> IsOdd(a) != IsOdd(b)) && Down(Xor(a, b)) == Xor(Down(a), Down(b))
    {
      XorStep(a, b);
    }
    ShownDiffers(IsOdd, Down, Xor, x, y, n);
    BitsAreShown(x, n);
    BitsAreShown(y, n);
    BitsAreShown(Xor(x, y), n);
  }

  // The same for words of any kind that are shifted down by one function and combined by another.
  predicate Fades<T(==)>(down: T -> T, zero: T, x: T, n: nat) {
    if n == 0 then x == zero else Fades(down, zero, down(x), n - 1)
  }

  lemma {:induction false} FadesTogether<T(!new)>(down: T -> T, zero: T, xor: (T, T) -> T, x: T, y: T, n: nat)
    requires xor(zero, zero) == zero && forall a, b :: down(xor(a, b)) == xor(down(a), down(b))
    requires Fades(down, zero, x, n) && Fades(down, zero, y, n)
    ensures Fades(down, zero, xor(x, y), n)
  {
    if n > 0 {
      FadesTogether(down, zero, xor, down(x), down(y), n - 1);
    }
  }

  lemma {:induction false} ShiftsOutFades(x: Word, n: nat)
    ensures ShiftsOut(x, n) <==> Fades(Down, 0, x, n)
  {
    if n > 0 {
      ShiftsOutFades(Down(x), n - 1);
    }
  }

  lemma XorOfZeros()
    ensures Xor(0, 0) == 0
  {
  }

  lemma XorGoesDown()
    ensures Xor(0, 0) == 0
    ensures forall a: Word, b: Word {:trigger Xor(a, b)} :: Down(Xor(a, b)) == Xor(Down(a), Down(b))
  {
    XorOfZeros();
    forall a: Word, b: Word {:trigger Xor(a, b)}
      ensures Down(Xor(a, b)) == Xor(Down(a), Down(b))
    {
      XorStep(a, b);
    }
  }

  lemma XorShiftsOut(x: Word, y: Word, n: nat)
    requires ShiftsOut(x, n) && ShiftsOut(y, n)
    ensures ShiftsOut(Xor(x, y), n)
  {
    XorGoesDown();
    ShiftsOutFades(x, n);
    ShiftsOutFades(y, n);
    FadesTogether(Down, 0, Xor, x, y, n);
    ShiftsOutFades(Xor(x, y), n);
  }

  // ---------- counting bits ----------

  // How many of the first n bits are set.
  function Ones(x: Word, n: nat): (c: nat)
    ensures c <= n
  {
    if n == 0 then 0 else (if IsOdd(x) then 1 else 0) + Ones(Down(x), n - 1)
  }

  // The same, as a word.
  function OnesWord(x: Word, n: nat): Word {
    if n == 0 then 0 else Plus(x & 1, OnesWord(Down(x), n - 1))
  }

  lemma PlusNoCarry(x: Word, y: Word)
    requires x < 2 && y < 64
    ensures Plus(x, y) as nat == x as nat + y as nat && Plus(x, y) < 64 + 2
  {
  }

  lemma LowBit(x: Word)
    ensures (x & 1) < 2 && (x & 1) as nat == if IsOdd(x) then 1 else 0
  {
  }

  lemma SmallNat(x: Word)
    requires x as nat < 64
    ensures x < 64
  {
  }

  lemma {:induction false} OnesWordCounts(x: Word, n: nat)
    requires n <= 32
    ensures OnesWord(x, n) as nat == Ones(x, n)
  {
    if n > 0 {
      OnesWordCounts(Down(x), n - 1);
      LowBitPlus(x, OnesWord(Down(x), n - 1));
    }
  }

  lemma LowBitPlus(x: Word, rest: Word)
    requires rest as nat < 64
    ensures Plus(x & 1, rest) as nat == (if IsOdd(x) then 1 else 0) + rest as nat
  {
    SmallNat(rest);
    LowBit(x);
    PlusNoCarry(x & 1, rest);
  }

  lemma PlusAssociates(x: Word, y: Word, z: Word)
    requires x < 64 && y < 64 && z < 64
    ensures Plus(Plus(x, y), z) == Plus(x, Plus(y, z))
  {
  }

  lemma OnesWordIsSmall(x: Word, n: nat)
    requires n <= 32
    ensures OnesWord(x, n) < 64
  {
    OnesWordCounts(x, n);
    SmallNat(OnesWord(x, n));
  }

  lemma ZeroPlus(x: Word)
    ensures Plus(0, x) == x
  {
  }

  lemma {:induction false} OnesSplit(x: Word, m: nat, n: nat)
    requires m + n <= 32
    ensures OnesWord(x, m + n) == Plus(OnesWord(x, m), OnesWord(Shifted(x, m), n))
  {
    if m > 0 {
      OnesSplit(Down(x), m - 1, n);
      LowBit(x);
      OnesWordIsSmall(Down(x), m - 1);
      OnesWordIsSmall(Shifted(Down(x), m - 1), n);
      PlusAssociates(x & 1, OnesWord(Down(x), m - 1), OnesWord(Shifted(Down(x), m - 1), n));
    } else {
      ZeroPlus(OnesWord(x, n));
    }
  }

  // ---------- counting bits in parallel ----------

  // Counts in fields of two, four and eight bits, each from two of half the size.
  function Pairs(x: Word): Word {
    x - ((x >> 1) & 0x5555_5555)
  }

  function Nibbles(x: Word): Word {
    (x & 0x3333_3333) + ((x >> 2) & 0x3333_3333)
  }

  function Octets(x: Word): Word {
    (x + (x >> 4)) & 0x0F0F_0F0F
  }

  // The sum of the four octets.
  function Total(x: Word): Word {
    (x * 0x0101_0101) >> 24
  }

  function ParallelCount(x: Word): Word {
    Total(Octets(Nibbles(Pairs(x))))
  }

  function FirstOctet(x: Word): Word {
    x & 0xFF
  }

  function Eight(x: Word): Word {
    (x & 1) + ((x >> 1) & 1) + ((x >> 2) & 1) + ((x >> 3) & 1) +
    ((x >> 4) & 1) + ((x >> 5) & 1) + ((x >> 6) & 1) + ((x >> 7) & 1)
  }

  lemma FirstOctetCounts(x: Word)
    ensures FirstOctet(Octets(Nibbles(Pairs(x)))) == Eight(x)
  {
  }

  function PairSums(x: Word): Word {
    (x & 0x5555_5555) + ((x >> 1) & 0x5555_5555)
  }

  lemma PairsAreSums(x: Word)
    ensures Pairs(x) == PairSums(x)
  {
  }

  lemma PairSumsShift(x: Word)
    ensures By8(PairSums(x)) == PairSums(By8(x))
  {
  }

  lemma PairsShift(x: Word)
    ensures By8(Pairs(x)) == Pairs(By8(x))
  {
    PairsAreSums(x);
    PairsAreSums(By8(x));
    PairSumsShift(x);
  }

  predicate HasRoom(x: Word) {
    x & 0x7777_7777 == x
  }

  lemma NibblesShift(x: Word)
    ensures By8(Nibbles(x)) == Nibbles(By8(x)) && HasRoom(Nibbles(x))
  {
  }

  lemma OctetsShift(x: Word)
    requires HasRoom(x)
    ensures By8(Octets(x)) == Octets(By8(x))
  {
  }

  function Counts(x: Word): Word {
    Octets(Nibbles(Pairs(x)))
  }

  lemma CountsShift(x: Word)
    ensures By8(Counts(x)) == Counts(By8(x))
  {
    PairsShift(x);
    NibblesShift(Pairs(x));
    OctetsShift(Nibbles(Pairs(x)));
  }

  predicate IsCount(x: Word) {
    x & 0x0F0F_0F0F == x
  }

  lemma OctetsAreCounts(x: Word)
    ensures IsCount(Octets(x))
  {
  }

  function SumOfFour(a: Word, b: Word, c: Word, d: Word): Word {
    Plus(a, Plus(b, Plus(c, d)))
  }

  lemma ProductIsSum(x: Word)
    requires IsCount(x)
    ensures Total(x) == SumOfFour(x & 0xFF, (x >> 8) & 0xFF, (x >> 16) & 0xFF, (x >> 24) & 0xFF)
  {
  }

  lemma By8Again(x: Word)
    ensures By8(By8(x)) == x >> 16 && By8(By8(By8(x))) == x >> 24
  {
  }

  lemma TotalIsSum(x: Word)
    requires IsCount(x)
    ensures Total(x) ==
      SumOfFour(FirstOctet(x), FirstOctet(By8(x)), FirstOctet(By8(By8(x))), FirstOctet(By8(By8(By8(x)))))
  {
    ProductIsSum(x);
    By8Again(x);
    assert FirstOctet(By8(x)) == (x >> 8) & 0xFF;
    assert FirstOctet(By8(By8(x))) == (x >> 16) & 0xFF;
    assert FirstOctet(By8(By8(By8(x)))) == (x >> 24) & 0xFF;
  }

  lemma EightOnes(x: Word)
    ensures OnesWord(x, 8) == Eight(x)
  {
    OnesSplit(x, 4, 4);
    ShiftedBy4(x);
    FourOnes(x);
    FourOnes(By4(x));
    EightIsTwiceFour(x);
  }

  function Four(x: Word): Word {
    Plus(x & 1, Plus(Down(x) & 1, Plus(Down(Down(x)) & 1, Plus(Down(Down(Down(x))) & 1, 0))))
  }

  lemma FourOnes(x: Word)
    ensures OnesWord(x, 4) == Four(x)
  {
    var n1: nat, n2: nat, n3: nat, n0: nat := 1, 2, 3, 0;
    assert OnesWord(Down(Down(Down(x))), n1) == Plus(Down(Down(Down(x))) & 1, OnesWord(Down(Down(Down(Down(x)))), n0));
    assert OnesWord(Down(Down(x)), n2) == Plus(Down(Down(x)) & 1, OnesWord(Down(Down(Down(x))), n1));
    assert OnesWord(Down(x), n3) == Plus(Down(x) & 1, OnesWord(Down(Down(x)), n2));
    assert OnesWord(x, 4) == Plus(x & 1, OnesWord(Down(x), n3));
  }

  lemma EightIsTwiceFour(x: Word)
    ensures Plus(Four(x), Four(By4(x))) == Eight(x)
  {
  }

  lemma OctetCounts(x: Word)
    ensures FirstOctet(Counts(x)) == OnesWord(x, 8)
  {
    FirstOctetCounts(x);
    EightOnes(x);
  }

  lemma FourEights(x: Word)
    ensures OnesWord(x, 32) ==
      SumOfFour(OnesWord(x, 8), OnesWord(By8(x), 8), OnesWord(By8(By8(x)), 8), OnesWord(By8(By8(By8(x))), 8))
  {
    OnesSplit(x, 8, 24);
    OnesSplit(By8(x), 8, 16);
    OnesSplit(By8(By8(x)), 8, 8);
    ShiftedBy8(x);
    ShiftedBy8(By8(x));
    ShiftedBy8(By8(By8(x)));
  }

  // The parallel count is the number of bits set.
  lemma ParallelCountIsOnes(x: Word)
    ensures ParallelCount(x) as nat == Ones(x, 32)
  {
    OctetsAreCounts(Nibbles(Pairs(x)));
    TotalIsSum(Counts(x));
    CountsShift(x);
    CountsShift(By8(x));
    CountsShift(By8(By8(x)));
    OctetCounts(x);
    OctetCounts(By8(x));
    OctetCounts(By8(By8(x)));
    OctetCounts(By8(By8(By8(x))));
    FourEights(x);
    OnesWordCounts(x, 32);
  }

  // ---------- Hamming distance of words ----------

  lemma {:induction false} OnesOfZero(n: nat)
    ensures Ones(0, n) == 0
  {
    if n > 0 {
      ZeroIsEven();
      OnesOfZero(n - 1);
    }
  }

  lemma ZeroIsEven()
    ensures !IsOdd(0) && Down(0) == 0
  {
  }

  // Bits after which the word is zero need not be counted.
  lemma {:induction false} OnesOfClean(x: Word, n: nat, k: nat)
    requires ShiftsOut(x, n)
    ensures Ones(x, n + k) == Ones(x, n)
  {
    if n > 0 {
      OnesOfClean(Down(x), n - 1, k);
    } else {
      OnesOfZero(k);
    }
  }

  lemma CountStep(low: bool, s: seq<bool>)
    ensures CountTrue([low] + s) == (if low then 1 else 0) + CountTrue(s)
  {
    assert ([low] + s)[1..] == s;
  }

  lemma {:induction false} OnesAreCounted(x: Word, n: nat)
    ensures CountTrue(BitsOf(x, n)) == Ones(x, n)
  {
    if n > 0 {
      OnesAreCounted(Down(x), n - 1);
      CountStep(IsOdd(x), BitsOf(Down(x), n - 1));
    }
  }

  // The parallel count of the bits in which two words differ is the Hamming distance of the vectors.
  lemma ParallelDistance(x: Word, y: Word, n: nat)
    requires n <= 32 && IsClean(x, n) && IsClean(y, n)
    ensures ParallelCount(Xor(x, y)) as nat == Differences(BitsOf(x, n), BitsOf(y, n))
  {
    var z := Xor(x, y);
    AllShiftOut(x);
    AllShiftOut(y);
    CleanShiftsOut(x, n, 32);
    CleanShiftsOut(y, n, 32);
    XorShiftsOut(x, y, n);
    OnesOfClean(z, n, 32 - n);
    ParallelCountIsOnes(z);
    OnesAreCounted(z, n);
    XorDiffers(x, y, n);
    DifferencesAreCounted(BitsOf(x, n), BitsOf(y, n));
  }
}
