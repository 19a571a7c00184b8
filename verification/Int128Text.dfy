/** 128-bit integers as text. */
module Int128Texts {
  import opened Powers
  import opened TwosComplement
  import opened LongDivision
  import opened Int128s
  import opened Wrappers

  // ---------- numbers as text ----------

  function DigitChar(c: nat): char
    requires c < 37
  {
    if c > 9 then 'A' + (c - 10) as char else '0' + c as char
  }

  // The digits of n, nothing for 0.
  function Digits(n: nat, radix: nat): string
    requires 2 <= radix <= 37
  {
    if n == 0 then "" else Digits(n / radix, radix) + [DigitChar(n % radix)]
  }

  // The text of a number: "-0" for -2^127, whose magnitude cannot be represented.
  function Text(x: int, radix: nat): string {
    if x == 0 then "0"
    else if radix < 2 || radix > 37 then "(invalid radix)"
    else if x == -TWO127 then "-0"
    else if x < 0 then "-" + Digits(-x, radix)
    else Digits(x, radix)
  }

  lemma HalfOf(n: int, radix: int, k: nat)
    requires 0 < n < Pow2(k + 1) && radix >= 2
    ensures 0 <= n / radix < Pow2(k) && n / radix < n
  {
    DivMod(n, radix);
    if n / radix >= Pow2(k) {
      MulOrder(radix, Pow2(k), n / radix);
      MulOrder(Pow2(k), 2, radix);
    }
    if n / radix < 0 {
      MulOrder(radix, n / radix, -1);
    }
    if n / radix >= n {
      MulOrder(radix, n, n / radix);
      MulOrder(n, 2, radix);
    }
  }

  lemma QuotientAndRest(n: int, radix: int, q: int, r: int)
    requires n > 0 && radix > 0 && IsTruncated(n, radix, q, r)
    ensures q == n / radix && r == n % radix
  {
    assert radix * q + r == n;
    DivIs(n, radix, q, r);
  }

  lemma DigitsGrow(n: int, radix: nat, done: string)
    requires n > 0 && 2 <= radix <= 37
    ensures n / radix >= 0 && Digits(n, radix) + done == Digits(n / radix, radix) + ([DigitChar(n % radix)] + done)
  {
    HalfOfPositive(n, radix);
    assert (Digits(n / radix, radix) + [DigitChar(n % radix)]) + done
           == Digits(n / radix, radix) + ([DigitChar(n % radix)] + done);
  }

  lemma HalfOfPositive(n: int, radix: int)
    requires n > 0 && radix > 0
    ensures n / radix >= 0
  {
    DivMod(n, radix);
    if n / radix < 0 {
      MulOrder(radix, n / radix, -1);
    }
  }

  // What the loop makes of a magnitude. That of -2^127 is negative, and dividing it leaves the digit "0".
  function LoopText(x: int, radix: nat): string
    requires 2 <= radix <= 37 && (x >= 0 || x == -TWO127)
  {
    if x < 0 then "0" else Digits(x, radix)
  }

  lemma SmallNumber(lo: Uint64, hi: Int64)
    requires 0 <= Number(lo, hi) < TWO64
    ensures lo == Number(lo, hi)
  {
  }

  lemma LeastNumber(lo: Uint64, hi: Int64)
    requires Number(lo, hi) == -TWO127
    ensures lo == 0
  {
  }

  // one round: the last digit of ii is cut off
  method CutDigit(ii: Int128, radix: Uint32, ghost k: nat, ghost done: string) returns (q: Int128, c: char)
    requires 2 <= radix <= 37 && (0 < ii.Value() < Pow2(k + 1) || ii.Value() == -TWO127)
    ensures fresh(q) && 0 <= q.Value() < Pow2(k)
    ensures LoopText(ii.Value(), radix) + done == LoopText(q.Value(), radix) + ([c] + done)
  {
    var aux := new Int128(radix, 0);
    var r := new Int128(0, 0);
    q := ii.Div(aux, r);
    if ii.Value() == -TWO127 {
      LeastNumber(r.lo, r.hi);
      assert LoopText(0, radix) + (['0'] + done) == ['0'] + done;
    } else {
      QuotientAndRest(ii.Value(), radix, q.Value(), r.Value());
      HalfOf(ii.Value(), radix, k);
      SmallNumber(r.lo, r.hi);
      DigitsGrow(ii.Value(), radix, done);
    }
    c := DigitChar(r.lo);
  }

  method MagnitudeText(a: Int128, radix: Uint32) returns (text: string)
    requires 2 <= radix <= 37 && (a.Value() > 0 || a.Value() == -TWO127)
    ensures text == LoopText(a.Value(), radix)
  {
    text := "";
    var i: nat := 255;
    var ii := a;
    ghost var k: nat := 127;
    Pow2Words();
    assert LoopText(a.Value(), radix) + text == LoopText(a.Value(), radix);
    while !ii.IsZero() && i != 0
      invariant i == 128 + k && k <= 127 && (0 <= ii.Value() < Pow2(k) || (k == 127 && ii.Value() == -TWO127))
      invariant LoopText(ii.Value(), radix) + text == LoopText(a.Value(), radix)
      decreases i
    {
      k := k - 1;
      var c;
      ii, c := CutDigit(ii, radix, k, text);
      text := [c] + text;
      i := i - 1;
    }
  }

  method ToString(a: Int128, radix: Uint32) returns (text: string)
    ensures text == Text(a.Value(), radix)
  {
    if a.IsZero() {
      return "0";
    }
    if radix < 2 || radix > 37 {
      return "(invalid radix)";
    }
    var ii := a.Magnitude();
    NegatedMagnitude(a.Value());
    text := MagnitudeText(ii, radix);
    if a.hi < 0 {
      text := "-" + text;
    }
  }

  // ---------- text as numbers ----------

  // The value of a digit. A letter one past the last digit of the radix is taken too.
  function DigitAt(c: char, radix: nat): Option<nat> {
    var x := c as int;
    if '0' <= c <= '9' && x < 48 + radix then Some(x - 48)
    else if 'a' <= c && x <= 97 + radix - 10 then Some(x - 97 + 10)
    else if 'A' <= c && x <= 65 + radix - 10 then Some(x - 65 + 10)
    else None
  }

  // Digits are read until there is none.
  function ReadFrom(s: string, radix: nat, before: int): int {
    if s == "" || DigitAt(s[0], radix).None? then before
    else ReadFrom(s[1..], radix, before * radix + DigitAt(s[0], radix).value)
  }

  // A leading 0 means octal, 0x hexadecimal.
  function Unprefixed(s: string): (r: (nat, string)) {
    if s == "" || s[0] != '0' then (10, s)
    else if |s| > 1 && s[1] == 'x' then (16, s[2..])
    else (8, s[1..])
  }

  function Denoted(s: string): int {
    var minus := s != "" && s[0] == '-';
    var (radix, digits) := Unprefixed(if minus then s[1..] else s);
    var x := ReadFrom(digits, radix, 0);
    if minus then -x else x
  }

  // another digit is read into `a`
  method ReadDigit(a: Int128, radix: nat, n: nat, ghost before: int)
    requires radix <= 16 && n < 256 && a.Value() == Wrap(before)
    modifies a
    ensures a.Value() == Wrap(before * radix + n)
  {
    var r := new Int128(radix, 0);
    var d := new Int128(n, 0);
    a.MulAssign(r);
    WrapMul(before, radix);
    a.AddAssign(d);
    WrapAdd(before * radix, n);
  }

  method ReadDigits(a: Int128, s: string, radix: nat)
    requires radix <= 16 && a.Value() == 0
    modifies a
    ensures a.Value() == Wrap(ReadFrom(s, radix, 0))
  {
    ghost var x := 0;
    WrapSame(0);
    var i := 0;
    while i < |s|
      invariant i <= |s| && a.Value() == Wrap(x) && ReadFrom(s, radix, 0) == ReadFrom(s[i..], radix, x)
    {
      var digit := DigitAt(s[i], radix);
      if digit.None? {
        break;
      }
      assert s[i..][1..] == s[i + 1..];
      ReadDigit(a, radix, digit.value, x);
      x := x * radix + digit.value;
      i := i + 1;
    }
  }

  method Negate(a: Int128, ghost x: int)
    requires a.Value() == Wrap(x)
    modifies a
    ensures a.Value() == Wrap(-x)
  {
    WrapNeg(x);
    var zero := new Int128(0, 0);
    zero.SubAssign(a);
    a.Assign(zero);
  }

  // Sets a number to what a text denotes, modulo 2^128.
  method Set(a: Int128, sz: string)
    modifies a
    ensures a.Value() == Wrap(Denoted(sz))
  {
    a.lo, a.hi := 0, 0;
    WrapSame(0);
    if sz == "" {
      return;
    }
    var s := sz;
    var minus := false;
    if s[0] == '-' {
      s := s[1..];
      minus := true;
    }
    var radix := 10;
    if s != "" && s[0] == '0' {
      radix := 8;
      s := s[1..];
      if s != "" && s[0] == 'x' {
        radix := 16;
        s := s[1..];
      }
    }
    assert (radix, s) == Unprefixed(if minus then sz[1..] else sz);
    ReadDigits(a, s, radix);
    if minus {
      Negate(a, ReadFrom(s, radix, 0));
    }
  }

  // ---------- numerals ----------

  // The value of a digit: letters of either case go on after 9.
  function Worth(c: char): int {
    if '0' <= c <= '9' then c as int - 48
    else if 'a' <= c then c as int - 97 + 10
    else if 'A' <= c then c as int - 65 + 10
    else -1
  }

  predicate IsNumeral(s: string, radix: nat) {
    forall c :: c in s ==> 0 <= Worth(c) < radix
  }

  // The number that digits denote, the last one counting once.
  function Denotes(s: string, radix: nat): int {
    if s == "" then 0 else Denotes(s[..|s| - 1], radix) * radix + Worth(s[|s| - 1])
  }

  lemma DigitIsWorth(c: char, radix: nat)
    requires radix <= 37 && 0 <= Worth(c) < radix
    ensures DigitAt(c, radix) == Some(Worth(c))
  {
  }

  lemma NumeralMore(s: string, c: char, radix: nat)
    requires IsNumeral(s, radix) && 0 <= Worth(c) < radix
    ensures IsNumeral(s + [c], radix) && Denotes(s + [c], radix) == Denotes(s, radix) * radix + Worth(c)
  {
    assert (s + [c])[..|s|] == s;
  }

  lemma NumeralParts(s: string, radix: nat)
    requires IsNumeral(s, radix) && s != ""
    ensures 0 <= Worth(s[0]) < radix && 0 <= Worth(s[|s| - 1]) < radix
    ensures IsNumeral(s[1..], radix) && IsNumeral(s[..|s| - 1], radix)
  {
    assert s[0] in s && s[|s| - 1] in s;
    assert forall c :: c in s[1..] || c in s[..|s| - 1] ==> c in s;
  }

  lemma {:induction false} ReadOneMore(s: string, c: char, radix: nat, before: int)
    requires radix <= 37 && IsNumeral(s, radix) && 0 <= Worth(c) < radix
    ensures ReadFrom(s + [c], radix, before) == ReadFrom(s, radix, before) * radix + Worth(c)
    decreases |s|
  {
    if s == "" {
      DigitIsWorth(c, radix);
      assert ([c])[1..] == "" && s + [c] == [c];
    } else {
      NumeralParts(s, radix);
      DigitIsWorth(s[0], radix);
      assert (s + [c])[1..] == s[1..] + [c];
      ReadOneMore(s[1..], c, radix, before * radix + Worth(s[0]));
    }
  }

  // What is read from digits is the number they denote.
  lemma {:induction false} ReadIsDenoted(s: string, radix: nat)
    requires radix <= 37 && IsNumeral(s, radix)
    ensures ReadFrom(s, radix, 0) == Denotes(s, radix)
  {
    if s != "" {
      var front, c := s[..|s| - 1], s[|s| - 1];
      NumeralParts(s, radix);
      ReadIsDenoted(front, radix);
      ReadOneMore(front, c, radix, 0);
      assert front + [c] == s;
    }
  }

  lemma DigitWorth(d: nat)
    requires d < 37
    ensures Worth(DigitChar(d)) == d && (DigitChar(d) == '0' <==> d == 0)
  {
  }

  lemma WrittenMore(t: string, q: int, r: int, radix: nat)
    requires radix <= 37 && 0 <= r < radix && IsNumeral(t, radix) && Denotes(t, radix) == q
    ensures IsNumeral(t + [DigitChar(r)], radix) && Denotes(t + [DigitChar(r)], radix) == radix * q + r
  {
    DigitWorth(r);
    NumeralMore(t, DigitChar(r), radix);
  }

  lemma DigitsMore(n: nat, radix: nat)
    requires n > 0 && radix >= 2
    ensures 0 <= n / radix < n && n == radix * (n / radix) + n % radix && 0 <= n % radix < radix
    ensures n / radix == 0 ==> n % radix == n
  {
    HalfOfPositive(n, radix);
    DivMod(n, radix);
    if n / radix >= n {
      MulOrder(radix, n, n / radix);
      MulOrder(n, 2, radix);
    }
  }

  // Whatever the radix, the digits written are a numeral for the number, without a zero in front.
  lemma {:induction false} DigitsDenote(n: nat, radix: nat)
    requires 2 <= radix <= 37
    ensures IsNumeral(Digits(n, radix), radix) && Denotes(Digits(n, radix), radix) == n
    ensures n > 0 ==> Digits(n, radix) != "" && Digits(n, radix)[0] != '0'
    decreases n
  {
    if n > 0 {
      DigitsMore(n, radix);
      var q, r := n / radix, n % radix;
      DigitsDenote(q, radix);
      WrittenMore(Digits(q, radix), q, r, radix);
      DigitWorth(r);
      assert Digits(n, radix) == Digits(q, radix) + [DigitChar(r)];
    }
  }

  // The text of a number other than 0 and -2^127: a numeral for its magnitude, behind its sign.
  lemma TextIsNumeral(x: int, radix: nat) returns (s: string)
    requires InRange(x) && x != 0 && x != -TWO127 && 2 <= radix <= 37
    ensures IsNumeral(s, radix) && Denotes(s, radix) == (if x < 0 then -x else x) && s != "" && s[0] != '0'
    ensures Text(x, radix) == if x < 0 then "-" + s else s
  {
    s := Digits(if x < 0 then -x else x, radix);
    DigitsDenote(if x < 0 then -x else x, radix);
  }

  function Prefix(radix: nat): string {
    if radix == 8 then "0" else if radix == 16 then "0x" else ""
  }

  // A numeral, behind a sign and the mark of its radix, is read as the number it denotes.
  lemma NumeralIsRead(s: string, radix: nat, minus: bool)
    requires radix in {8, 10, 16} && IsNumeral(s, radix) && (radix == 10 && s != "" ==> s[0] != '0')
    ensures var text := Prefix(radix) + s;
      Denoted(if minus then "-" + text else text) == if minus then -Denotes(s, radix) else Denotes(s, radix)
  {
    var text := Prefix(radix) + s;
    ReadIsDenoted(s, radix);
    if s != "" {
      NumeralParts(s, radix);
    }
    assert Unprefixed(text) == (radix, s) by {
      if radix == 8 {
        assert text[1..] == s;
      } else if radix == 16 {
        assert text[2..] == s;
      } else {
        assert text == s;
      }
    }
    assert ("-" + text)[1..] == text;
  }

  // ---------- back and forth ----------

  // Reading the decimal text of a number gives the number back; -2^127 alone is lost, it reads as 0.
  lemma TextDenotes(x: int)
    requires InRange(x)
    ensures Denoted(Text(x, 10)) == x <==> x != -TWO127
  {
    var n := if x < 0 then -x else x;
    if x == -TWO127 {
      assert Text(x, 10) == "-0" && "-0"[1..] == "0" && "0"[1..] == "";
    } else if x == 0 {
      assert "0"[1..] == "";
    } else {
      DigitsDenote(n, 10);
      NumeralIsRead(Digits(n, 10), 10, x < 0);
      assert Prefix(10) + Digits(n, 10) == Digits(n, 10);
    }
  }

  method RoundTrip(a: Int128) returns (b: Int128)
    ensures fresh(b) && (b.Value() == a.Value() <==> a.Value() != -TWO127)
  {
    var text := ToString(a, 10);
    b := new Int128(0, 0);
    Set(b, text);
    TextDenotes(a.Value());
    LostText();
    WrapSame(a.Value());
  }

  lemma LostText()
    ensures Wrap(Denoted(Text(-TWO127, 10))) == 0
  {
    assert "-0"[1..] == "0" && "0"[1..] == "";
    WrapSame(0);
  }

  // A digit is less than the radix, except for the one letter past the last, which is taken for the radix itself:
  // "1a" reads as 20.
  lemma LetterPastRadix(c: char, radix: nat)
    requires radix == 8 || radix == 10 || radix == 16
    ensures DigitAt(c, radix) ==
      if 0 <= Worth(c) < radix || (Worth(c) == radix && radix != 8) then Some(Worth(c)) else None
    ensures Denoted("1a") == 20
  {
    assert "1a"[1..] == "a" && "a"[1..] == "";
    assert ReadFrom("a", 10, 1) == ReadFrom("", 10, 20);
  }
}
