/** Long and short vectors of bits agree. */
module BitVectorAgreement {
  import opened Bits
  import opened Wrappers
  import Long = BitVectors
  import Short = ShortBitVectors

  // The operation stays within 32 bits.
  predicate Fits(s: seq<bool>, op: Op) {
    match op
    case Append(_) => |s| < 32
    case Set(pos, _) => pos < 32
    case Toggle(_) => true
  }

  // All operations do, one after the other.
  ghost predicate AllFit(ops: seq<Op>) {
    forall k :: 0 <= k < |ops| ==> Fits(ApplyAll([], ops[..k]), ops[k])
  }

  method ApplyLong(v: Long.BitVector, op: Op)
    requires v.Valid()
    modifies v
    ensures v.Valid() && v.Contents() == Apply(old(v.Contents()), op)
  {
    match op {
      case Append(value) => v.AppendBit(value);
      case Set(pos, value) => v.SetBit(pos, value);
      case Toggle(pos) => var _ := v.ToggleBit(pos);
    }
  }

  method ApplyShort(v: Short.ShortBitVector, op: Op)
    requires v.Valid() && Fits(v.Contents(), op)
    modifies v
    ensures v.Valid() && v.Contents() == Apply(old(v.Contents()), op)
  {
    match op {
      case Append(value) => var _ := v.AppendBit(value);
      case Set(pos, value) => var _ := v.SetBit(pos, value);
      case Toggle(pos) => var _ := v.ToggleBit(pos);
    }
  }

  // After the same operations, both vectors hold the same bits.
  method Build(ops: seq<Op>) returns (long: Long.BitVector, short: Short.ShortBitVector)
    requires AllFit(ops)
    ensures fresh(long) && fresh(short) && long.Valid() && short.Valid()
    ensures long.Contents() == short.Contents() == ApplyAll([], ops)
  {
    long := new Long.BitVector();
    short := new Short.ShortBitVector();
    for k := 0 to |ops|
      invariant fresh(long) && fresh(short) && long.Valid() && short.Valid()
      invariant long.Contents() == short.Contents() == ApplyAll([], ops[..k])
    {
      assert ops[..k + 1][..k] == ops[..k];
      ApplyLong(long, ops[k]);
      ApplyShort(short, ops[k]);
    }
    assert ops[..|ops|] == ops;
  }

  // Vectors that hold the same bits: they are read the same way, by loops over bits or by operations on the word.
  ghost predicate Agree(long: Long.BitVector, short: Short.ShortBitVector)
    reads long, short
  {
    long.Valid() && short.Valid() && long.Contents() == short.Contents()
  }

  lemma SameBit(long: Long.BitVector, short: Short.ShortBitVector, pos: nat)
    requires Agree(long, short)
    ensures long.GetSize() == short.GetSize()
    ensures long.GetBit(pos).Some? <==> short.GetBit(pos).Some?
    ensures long.GetBit(pos).Some? ==> long.GetBit(pos).value == short.GetBit(pos).value
  {
    var b, c := long.GetBit(pos), short.GetBit(pos);
    assert long.Contents() == short.Contents();
  }

  lemma WordIsModulo(x: Word)
    ensures x as nat % TWO32 == x as nat
  {
  }

  method ReadDecimals(long: Long.BitVector, short: Short.ShortBitVector) returns (d: nat, d': Word)
    requires Agree(long, short)
    ensures d == d' as nat
  {
    d := long.ToDecimal();
    d' := short.ToDecimal();
    WordIsModulo(d');
  }

  method ReadReversed(long: Long.BitVector, short: Short.ShortBitVector) returns (d: nat, d': nat)
    requires Agree(long, short)
    ensures d == d'
  {
    d := long.ReverseToDecimal();
    d' := short.ReverseToDecimal();
  }

  method ReadDistance(long: Long.BitVector, short: Short.ShortBitVector,
                      long': Long.BitVector, short': Short.ShortBitVector)
    returns (d: Option<nat>, d': Option<Word>)
    requires Agree(long, short) && Agree(long', short')
    ensures d.Some? <==> d'.Some?
    ensures d.Some? ==> d.value == d'.value as nat
  {
    d := long.ComputeHammingDistance(long');
    d' := short.ComputeHammingDistance(short');
  }
}
