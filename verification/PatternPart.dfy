/** Matching somewhere in a line: what substring mode adds to a pattern. */
module PatternParts {
  import opened Patterns
  import opened PatternGlobs
  import opened PatternMatchers
  import opened PatternTexts

  // The part falls into pieces that match the elements in order, where the line goes on with `after`.
  ghost predicate SplitsBefore(elems: seq<Elem>, pieces: seq<Text>, part: Text, after: Text) {
    && |pieces| == |elems| && Joined(pieces) == part
    && forall i :: 0 <= i < |elems| ==> Fits(elems[i], pieces[i], Joined(pieces[i + 1..]) + after)
  }

  ghost predicate MatchesBefore(elems: seq<Elem>, part: Text, after: Text) {
    exists pieces :: SplitsBefore(elems, pieces, part, after)
  }

  // What stands between the two places in the line matches the elements.
  ghost predicate MatchesBetween(elems: seq<Elem>, line: Text, i: nat, j: nat) {
    i <= j <= |line| && MatchesBefore(elems, line[i..j], line[j..])
  }

  ghost predicate MatchesSomewhere(elems: seq<Elem>, line: Text) {
    exists i: nat, j: nat :: MatchesBetween(elems, line, i, j)
  }

  // ---------- from the left ----------

  lemma {:induction false} AcceptedBefore(elems: seq<Elem>, line: Text) returns (j: nat)
    requires Accepts(elems + [AnySeq], line)
    ensures j <= |line| && MatchesBefore(elems, line[..j], line[j..])
  {
    var all := elems + [AnySeq];
    if elems == [] {
      j := 0;
      assert SplitsBefore([], [], line[..0], line);
      assert line[0..] == line;
    } else {
      var n := FirstCut(all, line);
      assert all[1..] == elems[1..] + [AnySeq] && all[0] == elems[0];
      var k := AcceptedBefore(elems[1..], line[n..]);
      j := n + k;
      assert line[n..][k..] == line[j..] && line[n..] == line[n..][..k] + line[j..];
      assert line[..j] == line[..n] + line[n..][..k];
      BeforeCons(elems, line[..n], line[n..][..k], line[j..]);
    }
  }

  lemma BeforeCons(elems: seq<Elem>, piece: Text, part: Text, after: Text)
    requires elems != [] && Fits(elems[0], piece, part + after) && MatchesBefore(elems[1..], part, after)
    ensures MatchesBefore(elems, piece + part, after)
  {
    var tail :| SplitsBefore(elems[1..], tail, part, after);
    var pieces := [piece] + tail;
    assert pieces[1..] == tail;
    forall i | 0 <= i < |elems|
      ensures Fits(elems[i], pieces[i], Joined(pieces[i + 1..]) + after)
    {
      if i > 0 {
        assert pieces[i + 1..] == tail[i..] && elems[i] == elems[1..][i - 1];
      }
    }
    assert SplitsBefore(elems, pieces, piece + part, after);
  }

  lemma BeforeTail(elems: seq<Elem>, part: Text, after: Text) returns (n: nat)
    requires elems != [] && MatchesBefore(elems, part, after)
    ensures n <= |part| && Fits(elems[0], part[..n], part[n..] + after)
    ensures MatchesBefore(elems[1..], part[n..], after)
  {
    var pieces :| SplitsBefore(elems, pieces, part, after);
    var tail := pieces[1..];
    forall i | 0 <= i < |elems| - 1
      ensures Fits(elems[1..][i], tail[i], Joined(tail[i + 1..]) + after)
    {
      assert tail[i + 1..] == pieces[i + 2..];
    }
    n := |pieces[0]|;
    assert part[..n] == pieces[0] && part[n..] == Joined(tail);
    assert SplitsBefore(elems[1..], tail, part[n..], after);
  }

  lemma {:induction false} BeforeAccepted(elems: seq<Elem>, part: Text, after: Text)
    requires MatchesBefore(elems, part, after)
    ensures Accepts(elems + [AnySeq], part + after)
    decreases |elems|
  {
    var all, line := elems + [AnySeq], part + after;
    if elems == [] {
      AcceptsAnySeq(line);
      assert all == [AnySeq];
    } else {
      var n := BeforeTail(elems, part, after);
      BeforeAccepted(elems[1..], part[n..], after);
      assert all[1..] == elems[1..] + [AnySeq] && all[0] == elems[0];
      assert line[..n] == part[..n] && line[n..] == part[n..] + after;
      assert Cut(all, line, n);
    }
  }

  // ---------- the added elements ----------

  // "**" in front lets a match start anywhere.
  lemma FrontAnySeq(elems: seq<Elem>, line: Text)
    ensures Accepts([AnySeq] + elems, line) <==> exists i: nat :: i <= |line| && Accepts(elems, line[i..])
  {
    var all := [AnySeq] + elems;
    assert all[1..] == elems;
    if Accepts(all, line) {
      var n := FirstCut(all, line);
    }
    if i: nat :| i <= |line| && Accepts(elems, line[i..]) {
      assert Cut(all, line, i);
    }
  }

  // One more "**" in front of one, or behind one, changes nothing.
  lemma FrontAnySeqTwice(elems: seq<Elem>, line: Text)
    requires elems != [] && elems[0] == AnySeq
    ensures Accepts([AnySeq] + elems, line) <==> Accepts(elems, line)
  {
    FrontAnySeq(elems, line);
    var tail := elems[1..];
    assert elems == [AnySeq] + tail;
    FrontAnySeq(tail, line);
    forall i: nat | i <= |line|
      ensures Accepts(elems, line[i..]) ==> Accepts(elems, line)
    {
      FrontAnySeq(tail, line[i..]);
      if k: nat :| k <= |line[i..]| && Accepts(tail, line[i..][k..]) {
        assert line[i..][k..] == line[i + k..];
      }
    }
    assert line[0..] == line;
  }

  lemma {:induction false} BackAnySeqTwice(elems: seq<Elem>, line: Text)
    requires elems != [] && elems[|elems| - 1] == AnySeq
    ensures Accepts(elems + [AnySeq], line) <==> Accepts(elems, line)
    decreases |elems|
  {
    var all := elems + [AnySeq];
    if |elems| == 1 {
      assert elems == [AnySeq] && all == [AnySeq, AnySeq] && [AnySeq] + [AnySeq] == all;
      FrontAnySeqTwice([AnySeq], line);
    } else {
      assert all[1..] == elems[1..] + [AnySeq] && all[0] == elems[0];
      forall n: nat
        ensures Cut(all, line, n) <==> Cut(elems, line, n)
      {
        if n <= |line| {
          BackAnySeqTwice(elems[1..], line[n..]);
        }
      }
    }
  }

  lemma WidenedAccepts(elems: seq<Elem>, line: Text)
    ensures Accepts(Widened(elems), line) <==> Accepts([AnySeq] + (elems + [AnySeq]), line)
  {
    var wide := if elems == [] || elems[|elems| - 1] != AnySeq then elems + [AnySeq] else elems;
    if wide == elems {
      forall i: nat | i <= |line|
        ensures Accepts(elems + [AnySeq], line[i..]) <==> Accepts(elems, line[i..])
      {
        BackAnySeqTwice(elems, line[i..]);
      }
      FrontAnySeq(elems, line);
      FrontAnySeq(elems + [AnySeq], line);
    }
    if wide[0] == AnySeq {
      FrontAnySeqTwice(wide, line);
    }
  }

  // In substring mode a line matches exactly if something in it does.
  lemma WidenedMatchesSomewhere(elems: seq<Elem>, line: Text)
    ensures IsMatch(Widened(elems), line) <==> MatchesSomewhere(elems, line)
  {
    AcceptsIffSplits(Widened(elems), line);
    WidenedAccepts(elems, line);
    FrontAnySeq(elems + [AnySeq], line);
    if i: nat :| i <= |line| && Accepts(elems + [AnySeq], line[i..]) {
      var j := AcceptedBefore(elems, line[i..]);
      assert line[i..][..j] == line[i..i + j] && line[i..][j..] == line[i + j..];
      assert MatchesBetween(elems, line, i, i + j);
    }
    if i: nat, j: nat :| MatchesBetween(elems, line, i, j) {
      BeforeAccepted(elems, line[i..j], line[j..]);
      assert line[i..j] + line[j..] == line[i..];
    }
  }

  // ---------- without looking ahead ----------

  predicate LooksAhead(e: Elem) {
    e.NumRange? || e.End?
  }

  // Only a range of numbers looks at what comes after the part.
  lemma MatchesAlone(elems: seq<Elem>, part: Text, after: Text)
    requires forall e :: e in elems ==> !LooksAhead(e)
    ensures MatchesBefore(elems, part, after) <==> IsMatch(elems, part)
  {
    forall pieces
      ensures SplitsBefore(elems, pieces, part, after) <==> Splits(elems, pieces, part)
    {
      assert forall i :: 0 <= i < |elems| ==> elems[i] in elems;
    }
  }

  // Without ranges of numbers: exactly if some part of the line matches the whole pattern.
  lemma SubstringModeIsPartMatch(text: Text, dotted: bool, line: Text)
    requires Tokens(text, dotted, false).Ok?
    requires forall e :: e in Tokens(text, dotted, false).value ==> !e.NumRange?
    ensures var whole, part := Compiled(text, dotted, true), Compiled(text, dotted, false);
      && whole.Ok? && part.Ok?
      && (IsMatch(part.value, line) <==>
          exists i: nat, j: nat :: i <= j <= |line| && IsMatch(whole.value, line[i..j]))
  {
    var elems := Tokens(text, dotted, false).value;
    WithoutEnd(Widened(elems), line);
    WidenedMatchesSomewhere(elems, line);
    forall i: nat, j: nat | i <= j <= |line|
      ensures MatchesBetween(elems, line, i, j) <==> IsMatch(elems + [End], line[i..j])
    {
      WithoutEnd(elems, line[i..j]);
      MatchesAlone(elems, line[i..j], line[j..]);
    }
  }

  // So a bare text in substring mode matches exactly the lines of which some part is what its characters say.
  lemma BareTextGlobsPart(text: Text, dotted: bool, line: Text)
    requires IsBare(text)
    ensures Compiled(text, dotted, false).Ok?
    ensures IsMatch(Compiled(text, dotted, false).value, line) <==>
      exists i: nat, j: nat :: i <= j <= |line| && Globs(text, dotted, line[i..j])
  {
    TokensGlob(text, dotted, false);
    SubstringModeIsPartMatch(text, dotted, line);
    forall i: nat, j: nat | i <= j <= |line|
      ensures IsMatch(Compiled(text, dotted, true).value, line[i..j]) <==> Globs(text, dotted, line[i..j])
    {
      BareTextGlobs(text, dotted, line[i..j]);
    }
  }

  lemma TwelveFrom(i: nat)
    requires i <= 2
    ensures MaximalRun("12"[i..], 2 - i)
    ensures i < 2 ==> Number("12"[i..][..2 - i]) > 1
  {
    var line: Text := "12";
    var rest := line[i..];
    assert rest[..2 - i] == rest;
    if i < 2 {
      assert rest[|rest| - 1] == '2' && Number(rest) == 10 * Number(rest[..|rest| - 1]) + 2;
    }
  }

  // With a range it need not be so: "{1..1}" matches the part "1" of "12", but takes both digits there.
  lemma RangeTakesAllDigits()
    ensures IsMatch([NumRange(1, 1)], "12"[0..1]) && !IsMatch(Widened([NumRange(1, 1)]), "12")
  {
    var elems, line: Text, one: Text := [NumRange(1, 1)], "12", "1";
    assert Number(one) == 1 by {
      assert one[..0] == [];
    }
    assert one == line[0..1] && Joined([one]) == one;
    assert Splits(elems, [one], one);
    AcceptsIffSplits(Widened(elems), line);
    WidenedAccepts(elems, line);
    FrontAnySeq(elems + [AnySeq], line);
    forall i: nat | i <= 2
      ensures !Accepts(elems + [AnySeq], line[i..])
    {
      TwelveFrom(i);
      NumRangeStep(elems + [AnySeq], line[i..], 2 - i);
    }
  }
}
