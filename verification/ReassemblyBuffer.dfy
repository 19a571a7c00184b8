/** Reassembly of a fragmented datagram. */
module ReassemblyBuffers {
  type Ushort = x: int | 0 <= x < 0x1_0000

  // The offsets from beg up to end; islast if they are the last of the datagram.
  datatype Region = Region(beg: Ushort, end: Ushort, islast: bool)

  // The offsets at which a datagram is cut into blocks: block i goes from cuts[i] to cuts[i + 1].
  ghost predicate IsPartition(cuts: seq<Ushort>) {
    |cuts| >= 2 && cuts[0] == 0 && forall i, j :: 0 <= i < j < |cuts| ==> cuts[i] < cuts[j]
  }

  function BlockCount(cuts: seq<Ushort>): nat
    requires |cuts| >= 2
  {
    |cuts| - 1
  }

  function Block(cuts: seq<Ushort>, i: nat): Region
    requires |cuts| >= 2 && i < BlockCount(cuts)
  {
    Region(cuts[i], cuts[i + 1], i == BlockCount(cuts) - 1)
  }

  // The blocks before k have been received, block k has not.
  ghost predicate IsRun(got: set<nat>, k: nat) {
    k !in got && forall j :: 0 <= j < k ==> j in got
  }

  ghost predicate AllReceived(cuts: seq<Ushort>, got: set<nat>)
    requires |cuts| >= 2
  {
    forall j :: 0 <= j < BlockCount(cuts) ==> j in got
  }

  function Without<T>(s: seq<T>, i: nat): seq<T>
    requires i < |s|
  {
    s[..i] + s[i + 1..]
  }

  lemma WithoutKeeps<T>(s: seq<T>, i: nat)
    requires i < |s|
    ensures forall x :: x in s ==> x == s[i] || x in Without(s, i)
    ensures forall x :: x in Without(s, i) ==> x in s
    ensures |Without(s, i)| == |s| - 1
    ensures forall t :: 0 <= t < |s| - 1 ==> Without(s, i)[t] == if t < i then s[t] else s[t + 1]
  {
    assert s == s[..i] + [s[i]] + s[i + 1..];
  }

  class ReassemblyBuffer {
    var main: Region
    var fragments: seq<Region>
    ghost const cuts: seq<Ushort>
    ghost var got: set<nat> // the blocks received
    ghost var run: nat // how many blocks main holds
    ghost var ids: seq<nat> // the blocks in `fragments`

    // main holds the first blocks; every received block that it does not hold is set aside.
    ghost predicate Consistent()
      reads this
    {
      && IsPartition(cuts) && run <= BlockCount(cuts)
      && main == Region(0, cuts[run], run == BlockCount(cuts))
      && (forall j :: j in got ==> j < BlockCount(cuts))
      && (forall j :: 0 <= j < run ==> j in got)
      && |ids| == |fragments|
      && (forall t :: 0 <= t < |ids| ==> ids[t] in got && fragments[t] == Block(cuts, ids[t]))
      && (forall j :: j in got && j >= run ==> j in ids)
    }

    // What is set aside does not connect to main, which is as long as it can be.
    ghost predicate Valid()
      reads this
    {
      Consistent() && forall t :: 0 <= t < |ids| ==> ids[t] > run
    }

    constructor (ghost cuts: seq<Ushort>)
      requires IsPartition(cuts)
      ensures Valid() && this.cuts == cuts && got == {}
    {
      main := Region(0, 0, false);
      fragments := [];
      this.cuts := cuts;
      got, run, ids := {}, 0, [];
    }

    lemma MainIsLongestRun()
      requires Valid()
      ensures IsRun(got, run) && main.beg == 0 && main.end == cuts[run]
      ensures (main.beg == 0 && main.islast) <==> AllReceived(cuts, got)
    {
      assert forall x :: x in ids ==> x > run;
    }

    // A fragment that main holds may go.
    method Erase(i: nat)
      requires Consistent() && i < |fragments| && ids[i] < run
      modifies `fragments, `ids
      ensures Consistent() && |fragments| == |old(fragments)| - 1
    {
      WithoutKeeps(fragments, i);
      WithoutKeeps(ids, i);
      fragments := Without(fragments, i);
      ids := Without(ids, i);
    }

    // one pass over the fragments
    method MergePass() returns (oncemore: bool)
      requires Consistent()
      modifies `main, `fragments, `run, `ids
      ensures Consistent() && |fragments| <= |old(fragments)|
      ensures oncemore ==> |fragments| < |old(fragments)|
      ensures !oncemore ==> Valid()
    {
      oncemore := false;
      var i := 0;
      while i < |fragments|
        invariant i <= |fragments| <= |old(fragments)| && Consistent()
        invariant oncemore ==> |fragments| < |old(fragments)|
        invariant !oncemore ==> forall t :: 0 <= t < i ==> ids[t] > run
        decreases |fragments| - i
      {
        var deleteit := false;
        var frag := fragments[i];
        if main.end == frag.beg {
          main := Region(main.beg, frag.end, main.islast || frag.islast);
          deleteit := true;
          run := run + 1;
        } else if main.beg == frag.end {
          // in front of main, which starts at 0: blocks are not empty
          assert false;
        } else if main.beg <= frag.beg && main.end >= frag.end {
          deleteit := true;
        }
        if deleteit {
          Erase(i);
          oncemore := true;
        } else {
          i := i + 1;
        }
      }
    }

    method MergeFragments()
      requires Consistent()
      modifies `main, `fragments, `run, `ids
      ensures Valid()
    {
      var oncemore := true;
      while oncemore
        invariant Consistent() && (!oncemore ==> Valid())
        decreases |fragments|, oncemore
      {
        oncemore := MergePass();
      }
    }

    // i is the number of the block.
    method Merge(beg: Ushort, end: Ushort, islast: bool, ghost i: nat)
      requires Valid() && i < BlockCount(cuts) && Region(beg, end, islast) == Block(cuts, i)
      modifies this
      ensures Valid() && got == old(got) + {i}
    {
      got := got + {i};
      if main.end == beg {
        main := Region(main.beg, end, main.islast || islast);
        run := run + 1;
        MergeFragments();
      } else if main.beg == end {
        assert false;
      } else if main.end < beg || main.beg > end {
        fragments := fragments + [Region(beg, end, islast)];
        ids := ids + [i];
      }
    }

    // Adds a block, perhaps one received before; true if all blocks have been received.
    method AddFragment(beg: Ushort, end: Ushort, islast: bool, ghost i: nat) returns (complete: bool)
      requires Valid() && i < BlockCount(cuts) && Region(beg, end, islast) == Block(cuts, i)
      modifies this
      ensures Valid() && got == old(got) + {i}
      ensures complete <==> AllReceived(cuts, got)
      ensures main.beg == 0 && IsRun(got, run) && main.end == cuts[run]
      ensures complete ==> GetTotalLength() == cuts[BlockCount(cuts)]
    {
      Merge(beg, end, islast, i);
      MainIsLongestRun();
      complete := main.beg == 0 && main.islast;
    }

    function GetTotalLength(): Ushort
      reads this
    {
      main.end
    }
  }

  function SetOf(s: seq<nat>): set<nat> {
    set i | i in s
  }

  // Blocks may arrive in any order, and any number of times: the datagram is complete with the first block after
  // which none is missing.
  method Reassemble(cuts: seq<Ushort>, arrivals: seq<nat>) returns (complete: seq<bool>)
    requires IsPartition(cuts) && forall i :: i in arrivals ==> i < BlockCount(cuts)
    ensures |complete| == |arrivals|
    ensures forall t :: 0 <= t < |arrivals| ==> (complete[t] <==> AllReceived(cuts, SetOf(arrivals[..t + 1])))
  {
    var buffer := new ReassemblyBuffer(cuts);
    complete := [];
    for t := 0 to |arrivals|
      invariant fresh(buffer) && buffer.Valid() && buffer.cuts == cuts
      invariant buffer.got == SetOf(arrivals[..t])
      invariant |complete| == t
      invariant forall u :: 0 <= u < t ==> (complete[u] <==> AllReceived(cuts, SetOf(arrivals[..u + 1])))
    {
      var i := arrivals[t];
      assert i in arrivals;
      var b := Block(cuts, i);
      var done := buffer.AddFragment(b.beg, b.end, b.islast, i);
      assert arrivals[..t + 1] == arrivals[..t] + [i];
      assert buffer.got == SetOf(arrivals[..t + 1]);
      complete := complete + [done];
    }
  }
}
