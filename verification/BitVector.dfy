/** Vectors of bits of any length, packed in bytes. */
module BitVectors {
  import opened Bits
  import opened Wrappers
  import opened Powers

  type Byte = bv8

  // ---------- bits in a byte ----------

  function Up8(m: Byte): Byte {
    m << 1
  }

  // 1 shifted left by j
  function Mask8(j: nat): Byte {
    if j == 0 then 1 else Up8(Mask8(j - 1))
  }

  predicate Meet8(x: Byte, m: Byte) {
    x & m != 0
  }

  predicate IsOneBit8(m: Byte) {
    m != 0 && m & (m - 1) == 0
  }

  function With8(x: Byte, m: Byte, value: bool): Byte {
    if value then x | m else x & !m
  }

  function Toggled8(x: Byte, m: Byte): Byte {
    x ^ m
  }

  lemma Masks8()
    ensures Mask8(0) == 1 && Mask8(1) == 2 && Mask8(2) == 4 && Mask8(3) == 8
    ensures Mask8(4) == 0x10 && Mask8(5) == 0x20 && Mask8(6) == 0x40 && Mask8(7) == 0x80
  {
  }

  lemma SameMask8(i: nat, j: nat)
    requires i < 8 && j < 8
    ensures IsOneBit8(Mask8(i)) && IsOneBit8(Mask8(j)) && (Mask8(i) == Mask8(j) <==> i == j)
  {
    Masks8();
  }

  lemma MeetWith8(x: Byte, p: Byte, m: Byte, value: bool)
    requires IsOneBit8(p) && IsOneBit8(m)
    ensures m == p ==> (Meet8(With8(x, p, value), m) <==> value)
    ensures m != p ==> (Meet8(With8(x, p, value), m) <==> Meet8(x, m))
  {
  }

  lemma MeetToggled8(x: Byte, p: Byte, m: Byte)
    requires IsOneBit8(p) && IsOneBit8(m)
    ensures m == p ==> (Meet8(Toggled8(x, p), m) <==> !Meet8(x, m))
    ensures m != p ==> (Meet8(Toggled8(x, p), m) <==> Meet8(x, m))
  {
  }

  lemma ZeroByte(j: nat)
    ensures !Meet8(0, Mask8(j))
  {
  }

  // ---------- bits in a sequence of bytes ----------

  predicate BitAt(bytes: seq<Byte>, i: nat)
    requires i < 8 * |bytes|
  {
    Meet8(bytes[i / 8], Mask8(i % 8))
  }

  // The first n bits.
  function BitsIn(bytes: seq<Byte>, n: nat): (s: seq<bool>)
    requires n <= 8 * |bytes|
    ensures |s| == n && forall i :: 0 <= i < n ==> s[i] == BitAt(bytes, i)
  {
    seq(n, i requires 0 <= i < n => BitAt(bytes, i))
  }

  // `changed` has the bits of `bytes` but for the one at pos.
  ghost predicate Differs(changed: seq<Byte>, bytes: seq<Byte>, pos: nat, value: bool)
    requires pos < 8 * |bytes|
  {
    && |changed| == |bytes|
    && forall i :: 0 <= i < 8 * |bytes| ==> (BitAt(changed, i) <==> if i == pos then value else BitAt(bytes, i))
  }

  lemma SetInBytes(bytes: seq<Byte>, pos: nat, value: bool)
    requires pos < 8 * |bytes|
    ensures Differs(bytes[pos / 8 := With8(bytes[pos / 8], Mask8(pos % 8), value)], bytes, pos, value)
  {
    var changed := bytes[pos / 8 := With8(bytes[pos / 8], Mask8(pos % 8), value)];
    forall i | 0 <= i < 8 * |bytes|
      ensures BitAt(changed, i) <==> if i == pos then value else BitAt(bytes, i)
    {
      SameMask8(i % 8, pos % 8);
      MeetWith8(bytes[pos / 8], Mask8(pos % 8), Mask8(i % 8), value);
    }
  }

  lemma ToggleInBytes(bytes: seq<Byte>, pos: nat)
    requires pos < 8 * |bytes|
    ensures Differs(bytes[pos / 8 := Toggled8(bytes[pos / 8], Mask8(pos % 8))], bytes, pos, !BitAt(bytes, pos))
  {
    var changed := bytes[pos / 8 := Toggled8(bytes[pos / 8], Mask8(pos % 8))];
    forall i | 0 <= i < 8 * |bytes|
      ensures BitAt(changed, i) <==> if i == pos then !BitAt(bytes, pos) else BitAt(bytes, i)
    {
      SameMask8(i % 8, pos % 8);
      MeetToggled8(bytes[pos / 8], Mask8(pos % 8), Mask8(i % 8));
    }
  }

  class BitVector {
    var bytes: seq<Byte>
    var size: nat

    // The bytes have no bits beyond the size.
    ghost predicate Valid()
      reads this
    {
      size <= 8 * |bytes| && forall i :: size <= i < 8 * |bytes| ==> !BitAt(bytes, i)
    }

    function Contents(): (s: seq<bool>)
      requires size <= 8 * |bytes|
      reads this
      ensures |s| == size
    {
      BitsIn(bytes, size)
    }

    constructor ()
      ensures Valid() && Contents() == []
    {
      size := 0;
      bytes := [0];
      new;
      forall i | 0 <= i < 8
        ensures !BitAt(bytes, i)
      {
        ZeroByte(i % 8);
      }
    }

    function GetSize(): (n: nat)
      requires Valid()
      reads this
      ensures n == |Contents()|
    {
      size
    }

    // nothing, for an error, beyond the end
    function GetBit(pos: nat): (b: Option<bool>)
      requires Valid()
      reads this
      ensures b == if pos < |Contents()| then Some(Contents()[pos]) else None
    {
      if pos >= size then None else Some(BitAt(bytes, pos))
    }

    // Makes room for bit pos.
    method Grow(pos: nat)
      requires Valid()
      modifies `bytes
      ensures Valid() && pos < 8 * |bytes| && Contents() == old(Contents())
    {
      while 8 * |bytes| <= pos
        invariant Valid() && |bytes| >= |old(bytes)| && bytes[..|old(bytes)|] == old(bytes)
        decreases pos - 8 * |bytes|
      {
        ghost var before := bytes;
        bytes := bytes + [0];
        forall i | size <= i < 8 * |bytes|
          ensures !BitAt(bytes, i)
        {
          ZeroByte(i % 8);
          assert i < 8 * |before| ==> !BitAt(before, i);
        }
      }
      forall i | 0 <= i < size
        ensures BitAt(bytes, i) == BitAt(old(bytes), i)
      {
        assert bytes[i / 8] == bytes[..|old(bytes)|][i / 8];
      }
    }

    method SetBit(pos: nat, value: bool)
      requires Valid()
      modifies this
      ensures Valid() && Contents() == Put(old(Contents()), pos, value)
    {
      Grow(pos);
      ghost var n := size;
      if pos + 1 > size {
        size := pos + 1;
      }
      SetInBytes(bytes, pos, value);
      bytes := bytes[pos / 8 := With8(bytes[pos / 8], Mask8(pos % 8), value)];
    }

    method AppendBit(value: bool)
      requires Valid()
      modifies this
      ensures Valid() && Contents() == old(Contents()) + [value]
    {
      SetBit(size, value);
      assert old(Contents()) + Zeros(0) + [value] == old(Contents()) + [value];
    }

    // false, for an error, beyond the end
    method ToggleBit(pos: nat) returns (ok: bool)
      requires Valid()
      modifies this
      ensures Valid() && (ok <==> pos < old(size)) && Contents() == Apply(old(Contents()), Toggle(pos))
    {
      if pos >= size {
        return false;
      }
      ToggleInBytes(bytes, pos);
      bytes := bytes[pos / 8 := Toggled8(bytes[pos / 8], Mask8(pos % 8))];
      ok := true;
    }

    // A number, modulo 2^32.
    method ToDecimal() returns (dec: nat)
      requires Valid()
      ensures dec == Value(Contents()) % TWO32
    {
      ghost var s := Contents();
      dec := 0;
      var powerOfTwo := 1;
      for i := 0 to size
        invariant powerOfTwo == Pow2(i) % TWO32 && dec == Value(s[..i]) % TWO32
      {
        NextPower(s, i, dec, powerOfTwo);
        if BitAt(bytes, i) {
          dec := (dec + powerOfTwo) % TWO32;
        }
        powerOfTwo := powerOfTwo * 2 % TWO32;
      }
      assert s[..size] == s;
    }

    // The number with the bits in the reverse order, modulo 2^32.
    method ReverseToDecimal() returns (dec: nat)
      requires Valid()
      ensures dec == Value(Reversed(Contents())) % TWO32
    {
      ghost var r := Reversed(Contents());
      dec := 0;
      var powerOfTwo := 1;
      var i := size - 1;
      while i >= 0
        invariant -1 <= i < size && powerOfTwo == Pow2(size - 1 - i) % TWO32
        invariant dec == Value(r[..size - 1 - i]) % TWO32
      {
        NextPower(r, size - 1 - i, dec, powerOfTwo);
        if BitAt(bytes, i) {
          dec := (dec + powerOfTwo) % TWO32;
        }
        powerOfTwo := powerOfTwo * 2 % TWO32;
        i := i - 1;
      }
      assert r[..size] == r;
    }

    // nothing, for an error, if the sizes differ
    method ComputeHammingDistance(u: BitVector) returns (d: Option<nat>)
      requires Valid() && u.Valid()
      ensures d.Some? <==> |Contents()| == |u.Contents()|
      ensures d.Some? ==> d.value == Differences(Contents(), u.Contents())
    {
      if size != u.size {
        return None;
      }
      ghost var s, t := Contents(), u.Contents();
      var hammingDistance := 0;
      for i := 0 to size
        invariant hammingDistance + Differences(s[i..], t[i..]) == Differences(s, t)
      {
        assert s[i..][1..] == s[i + 1..] && t[i..][1..] == t[i + 1..];
        if u.GetBit(i) != GetBit(i) {
          hammingDistance := hammingDistance + 1;
        }
      }
      d := Some(hammingDistance);
    }

    method Equals(rhs: BitVector) returns (equal: bool)
      requires Valid() && rhs.Valid()
      ensures equal <==> Contents() == rhs.Contents()
    {
      if rhs.size != size {
        return false;
      }
      for i := 0 to size
        invariant Contents()[..i] == rhs.Contents()[..i]
      {
        if GetBit(i) != rhs.GetBit(i) {
          return false;
        }
      }
      equal := true;
    }

    // Takes over the bits of another vector.
    method CopyFrom(other: BitVector)
      requires other.Valid() && other != this
      modifies this
      ensures Valid() && Contents() == other.Contents()
    {
      size := 0;
      bytes := [];
      for i := 0 to other.size
        invariant Valid() && Contents() == other.Contents()[..i]
      {
        AppendBit(BitAt(other.bytes, i));
      }
    }
  }
}
