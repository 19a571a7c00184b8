/** Short vectors of bits, packed in one word. */
module ShortBitVectors {
  import opened Bits
  import opened Wrappers
  import opened Powers

  class ShortBitVector {
    var bits: Word
    var size: nat

    // The word has no bits beyond the size.
    ghost predicate Valid()
      reads this
    {
      size <= 32 && IsClean(bits, size)
    }

    function Contents(): seq<bool>
      reads this
    {
      BitsOf(bits, size)
    }

    constructor ()
      ensures Valid() && Contents() == []
    {
      bits, size := 0, 0;
      new;
      ZeroIsClean();
    }

    lemma ContentsAt(i: nat)
      requires i < size
      ensures Contents()[i] <==> Bit(bits, i)
    {
      BitsOfAt(bits, size, i);
    }

    function GetSize(): (n: nat)
      reads this
      ensures n == |Contents()|
    {
      size
    }

    // nothing, for an error, beyond the end
    function GetBit(pos: nat): (b: Option<bool>)
      reads this
      ensures b == if pos < |Contents()| then Some(Contents()[pos]) else None
    {
      if pos >= size then None
      else
        ContentsAt(pos);
        Some(Bit(bits, pos))
    }

    // false, for an error, beyond the word
    method SetBit(pos: nat, value: bool) returns (ok: bool)
      requires Valid()
      modifies this
      ensures Valid() && (ok <==> pos < 32)
      ensures Contents() == if ok then Put(old(Contents()), pos, value) else old(Contents())
    {
      if pos >= 32 {
        return false;
      }
      ghost var x, n := bits, size;
      if pos + 1 > size {
        size := pos + 1;
      }
      bits := With(bits, Mask(pos), value);
      SetIsPut(x, n, pos, value);
      ok := true;
    }

    method AppendBit(value: bool) returns (ok: bool)
      requires Valid()
      modifies this
      ensures Valid() && (ok <==> old(size) < 32)
      ensures Contents() == if ok then old(Contents()) + [value] else old(Contents())
    {
      ok := SetBit(size, value);
      assert old(Contents()) + Zeros(0) + [value] == old(Contents()) + [value];
    }

    method ToggleBit(pos: nat) returns (ok: bool)
      requires Valid()
      modifies this
      ensures Valid() && (ok <==> pos < old(size))
      ensures Contents() == Apply(old(Contents()), Toggle(pos))
    {
      if pos >= size {
        return false;
      }
      ghost var x := bits;
      bits := Toggled(bits, Mask(pos));
      ToggleIsApplied(x, size, pos);
      ok := true;
    }

    function ToDecimal(): (d: Word)
      requires Valid()
      reads this
      ensures d as nat == Value(Contents())
    {
      ValueOfBits(bits, size);
      bits
    }

    // The number with the bits in the reverse order.
    method ReverseToDecimal() returns (decimal: nat)
      requires Valid()
      ensures decimal == Value(Reversed(Contents())) % TWO32
    {
      ghost var r := Reversed(Contents());
      decimal := 0;
      var powerOfTwo := 1;
      var i := size - 1;
      while i >= 0
        invariant -1 <= i < size && powerOfTwo == Pow2(size - 1 - i) % TWO32
        invariant decimal == Value(r[..size - 1 - i]) % TWO32
      {
        ContentsAt(i);
        NextPower(r, size - 1 - i, decimal, powerOfTwo);
        if Bit(bits, i) {
          decimal := (decimal + powerOfTwo) % TWO32;
        }
        powerOfTwo := powerOfTwo * 2 % TWO32;
        i := i - 1;
      }
      assert r[..size] == r;
    }

    // nothing, for an error, if the sizes differ
    method ComputeHammingDistance(u: ShortBitVector) returns (d: Option<Word>)
      requires Valid() && u.Valid()
      ensures d.Some? <==> |Contents()| == |u.Contents()|
      ensures d.Some? ==> d.value as nat == Differences(Contents(), u.Contents())
    {
      if size != u.size {
        return None;
      }
      ParallelDistance(bits, u.bits, size);
      d := Some(ParallelCount(Xor(bits, u.bits)));
    }

    // Only the words are compared.
    predicate Equals(rhs: ShortBitVector)
      reads this, rhs
    {
      rhs.bits == bits
    }

    // So vectors of different sizes can be equal: the comparison is right exactly if the sizes are the same or the
    // numbers that the bits denote differ.
    lemma EqualsIsRight(rhs: ShortBitVector)
      requires Valid() && rhs.Valid()
      ensures (Equals(rhs) <==> Contents() == rhs.Contents())
              <==> (size == rhs.size || Value(Contents()) != Value(rhs.Contents()))
    {
      ValueOfBits(bits, size);
      ValueOfBits(rhs.bits, rhs.size);
      if bits as nat == rhs.bits as nat {
        SameNat(bits, rhs.bits);
      }
    }

    // One zero and two zeros, for instance, count as equal.
    lemma ZeroEqualsTwoZeros(rhs: ShortBitVector)
      requires Valid() && rhs.Valid() && Contents() == [false] && rhs.Contents() == [false, false]
      ensures Equals(rhs)
    {
      assert Value([false]) == Value([false, false]) == 0;
      EqualsIsRight(rhs);
    }
  }

  lemma ZeroIsClean()
    ensures IsClean(0, 0)
  {
  }

  lemma SameNat(x: Word, y: Word)
    requires x as nat == y as nat
    ensures x == y
  {
    BackToWord(x);
    BackToWord(y);
  }

  lemma BackToWord(x: Word)
    ensures (x as nat) as Word == x
  {
  }

  lemma BitsAre(x: Word, n: nat, s: seq<bool>)
    requires |s| == n && forall i :: 0 <= i < n ==> (Bit(x, i) <==> s[i])
    ensures BitsOf(x, n) == s
  {
    forall i | 0 <= i < n
      ensures BitsOf(x, n)[i] == s[i]
    {
      BitsOfAt(x, n, i);
    }
  }

  lemma PutAt(x: Word, n: nat, pos: nat, value: bool, i: nat)
    requires n <= 32 && pos < 32 && IsClean(x, n) && i < 32 && (i < n || i <= pos)
    ensures i < |Put(BitsOf(x, n), pos, value)|
    ensures i == pos ==> Put(BitsOf(x, n), pos, value)[i] == value
    ensures i != pos ==> (Put(BitsOf(x, n), pos, value)[i] <==> Bit(x, i))
  {
    if i < n {
      BitsOfAt(x, n, i);
    }
  }

  // Setting a bit of the word is setting the bit of the vector.
  lemma SetIsPut(x: Word, n: nat, pos: nat, value: bool)
    requires n <= 32 && pos < 32 && IsClean(x, n)
    ensures var m := if pos + 1 > n then pos + 1 else n;
      IsClean(With(x, Mask(pos), value), m) && BitsOf(With(x, Mask(pos), value), m) == Put(BitsOf(x, n), pos, value)
  {
    var y, m := With(x, Mask(pos), value), if pos + 1 > n then pos + 1 else n;
    var s := Put(BitsOf(x, n), pos, value);
    forall i | 0 <= i < m
      ensures Bit(y, i) <==> s[i]
    {
      BitSet(x, pos, value, i);
      PutAt(x, n, pos, value, i);
    }
    BitsAre(y, m, s);
    SetIsClean(x, n, pos, value, m);
  }

  lemma SetIsClean(x: Word, n: nat, pos: nat, value: bool, m: nat)
    requires pos < 32 && IsClean(x, n) && m >= n && m > pos
    ensures IsClean(With(x, Mask(pos), value), m)
  {
    forall i | m <= i < 32
      ensures !Bit(With(x, Mask(pos), value), i)
    {
      BitSet(x, pos, value, i);
    }
  }

  lemma ToggleIsApplied(x: Word, n: nat, pos: nat)
    requires n <= 32 && pos < n && IsClean(x, n)
    ensures IsClean(Toggled(x, Mask(pos)), n)
    ensures BitsOf(Toggled(x, Mask(pos)), n) == Apply(BitsOf(x, n), Toggle(pos))
  {
    var y := Toggled(x, Mask(pos));
    var s := Apply(BitsOf(x, n), Toggle(pos));
    forall i | 0 <= i < n
      ensures Bit(y, i) <==> s[i]
    {
      BitToggled(x, pos, i);
      BitsOfAt(x, n, i);
      BitsOfAt(x, n, pos);
    }
    BitsAre(y, n, s);
    ToggleIsClean(x, n, pos);
  }

  lemma ToggleIsClean(x: Word, n: nat, pos: nat)
    requires n <= 32 && pos < n && IsClean(x, n)
    ensures IsClean(Toggled(x, Mask(pos)), n)
  {
    forall i | n <= i < 32
      ensures !Bit(Toggled(x, Mask(pos)), i)
    {
      BitToggled(x, pos, i);
    }
  }
}
