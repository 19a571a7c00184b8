/** Elements of a pattern and the lines they match. */
module Patterns {

  type Text = seq<char>

  datatype Elem =
    | LiteralString(text: Text)
    | AnyChar
    | CommonChar // any character except '.'
    | CharSet(chars: Text) // the characters 0 and 1, 2 and 3 and so on are the ends of ranges
    | NegSet(chars: Text)
    | NumRange(from: int, to: int) // a negative end is open
    | AnySeq // any characters
    | CommonSeq // any characters except '.'
    | End

  predicate IsDigit(c: char) {
    '0' <= c <= '9'
  }

  // Characters are compared as signed bytes.
  function Code(c: char): int {
    if c as int < 128 then c as int else c as int - 256
  }

  ghost predicate InSet(c: char, chars: Text) {
    exists i :: 0 <= i < |chars| / 2 && Code(chars[2 * i]) <= Code(c) <= Code(chars[2 * i + 1])
  }

  // The number a string of digits denotes.
  function Number(digits: Text): nat
    requires forall c :: c in digits ==> IsDigit(c)
  {
    if digits == [] then 0
    else
      var last := digits[|digits| - 1];
      assert last in digits && IsDigit(last);
      10 * Number(digits[..|digits| - 1]) + (last as int - '0' as int)
  }

  predicate InRange(num: nat, from: int, to: int) {
    (from < 0 || from <= num) && (to < 0 || num <= to)
  }

  // The element matches a piece of a line that goes on with `rest`.
  ghost predicate Fits(e: Elem, piece: Text, rest: Text) {
    match e
    case LiteralString(text) => piece == text
    case AnyChar => |piece| == 1
    case CommonChar => |piece| == 1 && piece[0] != '.'
    case CharSet(chars) => |piece| == 1 && InSet(piece[0], chars)
    case NegSet(chars) => |piece| == 1 && !InSet(piece[0], chars)
    case NumRange(from, to) =>
      && piece != [] && (forall c :: c in piece ==> IsDigit(c)) && InRange(Number(piece), from, to)
      && (rest != [] ==> !IsDigit(rest[0]))
    case AnySeq => true
    case CommonSeq => '.' !in piece
    case End => piece == [] && rest == []
  }

  function Joined(pieces: seq<Text>): Text {
    if pieces == [] then [] else pieces[0] + Joined(pieces[1..])
  }

  // The line falls into pieces that match the elements in order.
  ghost predicate Splits(elems: seq<Elem>, pieces: seq<Text>, line: Text) {
    && |pieces| == |elems| && Joined(pieces) == line
    && forall i :: 0 <= i < |elems| ==> Fits(elems[i], pieces[i], Joined(pieces[i + 1..]))
  }

  ghost predicate IsMatch(elems: seq<Elem>, line: Text) {
    exists pieces :: Splits(elems, pieces, line)
  }

  // ---------- matching element by element ----------

  ghost predicate Cut(elems: seq<Elem>, line: Text, n: nat)
    requires elems != []
    decreases elems, 0
  {
    n <= |line| && Fits(elems[0], line[..n], line[n..]) && Accepts(elems[1..], line[n..])
  }

  ghost predicate Accepts(elems: seq<Elem>, line: Text)
    decreases elems, 1
  {
    if elems == [] then line == [] else exists n: nat :: Cut(elems, line, n)
  }

  lemma FirstCut(elems: seq<Elem>, line: Text) returns (n: nat)
    requires elems != [] && Accepts(elems, line)
    ensures Cut(elems, line, n)
  {
    n :| Cut(elems, line, n);
  }

  lemma {:induction false} AcceptedSplits(elems: seq<Elem>, line: Text) returns (pieces: seq<Text>)
    requires Accepts(elems, line)
    ensures Splits(elems, pieces, line)
  {
    if elems == [] {
      pieces := [];
    } else {
      var n := FirstCut(elems, line);
      var tail := AcceptedSplits(elems[1..], line[n..]);
      pieces := [line[..n]] + tail;
      assert pieces[1..] == tail && line == line[..n] + line[n..];
      forall i | 0 <= i < |elems|
        ensures Fits(elems[i], pieces[i], Joined(pieces[i + 1..]))
      {
        if i > 0 {
          assert pieces[i + 1..] == tail[i..];
        }
      }
    }
  }

  lemma {:induction false} SplitAccepted(elems: seq<Elem>, pieces: seq<Text>, line: Text)
    requires Splits(elems, pieces, line)
    ensures Accepts(elems, line)
  {
    if elems != [] {
      var tail := pieces[1..];
      forall i | 0 <= i < |elems| - 1
        ensures Fits(elems[1..][i], tail[i], Joined(tail[i + 1..]))
      {
        assert tail[i + 1..] == pieces[i + 2..];
      }
      SplitAccepted(elems[1..], tail, Joined(tail));
      var n := |pieces[0]|;
      assert line[..n] == pieces[0] && line[n..] == Joined(tail);
      assert Cut(elems, line, n);
    }
  }

  // Cutting off pieces from the left finds a split exactly when there is one.
  lemma AcceptsIffSplits(elems: seq<Elem>, line: Text)
    ensures Accepts(elems, line) <==> IsMatch(elems, line)
  {
    if Accepts(elems, line) {
      var pieces := AcceptedSplits(elems, line);
    }
    if IsMatch(elems, line) {
      var pieces :| Splits(elems, pieces, line);
      SplitAccepted(elems, pieces, line);
    }
  }

  // ---------- the shortcuts ----------

  predicate EndsWith(line: Text, ending: Text) {
    |ending| <= |line| && line[|line| - |ending|..] == ending
  }

  lemma EndAccepts(line: Text)
    ensures Accepts([End], line) <==> line == []
  {
    if line == [] {
      assert Cut([End], line, 0);
    }
  }

  // A pattern that ends in "**" takes the rest of the line whatever it is.
  lemma LastAnySeq(line: Text)
    ensures Accepts([AnySeq, End], line)
  {
    EndAccepts(line[|line|..]);
    assert [AnySeq, End][1..] == [End];
    assert Cut([AnySeq, End], line, |line|);
  }

  lemma LastLiteral(text: Text, line: Text)
    ensures Accepts([LiteralString(text), End], line) <==> line == text
  {
    var elems := [LiteralString(text), End];
    assert elems[1..] == [End];
    if line == text {
      EndAccepts(line[|line|..]);
      assert line[..|line|] == line;
      assert Cut(elems, line, |line|);
    }
    if Accepts(elems, line) {
      var n := FirstCut(elems, line);
      EndAccepts(line[n..]);
      assert line[..n] == line;
    }
  }

  // A pattern that ends in "**" and a literal takes every rest that ends with the literal.
  lemma LastAnySeqLiteral(text: Text, line: Text)
    ensures Accepts([AnySeq, LiteralString(text), End], line) <==> EndsWith(line, text)
  {
    var elems := [AnySeq, LiteralString(text), End];
    assert elems[1..] == [LiteralString(text), End];
    if EndsWith(line, text) {
      LastLiteral(text, line[|line| - |text|..]);
      assert Cut(elems, line, |line| - |text|);
    }
    if Accepts(elems, line) {
      var n := FirstCut(elems, line);
      LastLiteral(text, line[n..]);
    }
  }

  // Whatever comes before it, a literal at the end of the pattern is at the end of the line.
  lemma {:induction false} LiteralEndsLine(elems: seq<Elem>, text: Text, line: Text)
    requires Accepts(elems + [LiteralString(text), End], line)
    ensures EndsWith(line, text)
  {
    var all := elems + [LiteralString(text), End];
    if elems == [] {
      assert all == [LiteralString(text), End];
      LastLiteral(text, line);
    } else {
      var n := FirstCut(all, line);
      assert all[1..] == elems[1..] + [LiteralString(text), End];
      LiteralEndsLine(elems[1..], text, line[n..]);
    }
  }

  // ---------- one element at a time ----------

  predicate IsOneChar(e: Elem) {
    e.AnyChar? || e.CommonChar? || e.CharSet? || e.NegSet?
  }

  lemma OneCharStep(elems: seq<Elem>, line: Text)
    requires elems != [] && IsOneChar(elems[0])
    ensures Accepts(elems, line) <==>
      line != [] && Fits(elems[0], line[..1], line[1..]) && Accepts(elems[1..], line[1..])
  {
    if line != [] && Fits(elems[0], line[..1], line[1..]) && Accepts(elems[1..], line[1..]) {
      assert Cut(elems, line, 1);
    }
    if Accepts(elems, line) {
      var n := FirstCut(elems, line);
      assert n == |line[..n]| == 1;
    }
  }

  lemma LiteralStep(elems: seq<Elem>, line: Text, text: Text)
    requires elems != [] && elems[0] == LiteralString(text)
    ensures Accepts(elems, line) <==>
      |text| <= |line| && line[..|text|] == text && Accepts(elems[1..], line[|text|..])
  {
    if |text| <= |line| && line[..|text|] == text && Accepts(elems[1..], line[|text|..]) {
      assert Cut(elems, line, |text|);
    }
    if Accepts(elems, line) {
      var m := FirstCut(elems, line);
      assert m == |line[..m]| == |text|;
    }
  }

  ghost predicate MaximalRun(line: Text, n: nat) {
    n <= |line| && (forall c :: c in line[..n] ==> IsDigit(c)) && (line[n..] != [] ==> !IsDigit(line[n..][0]))
  }

  lemma OneMaximalRun(line: Text, n: nat, m: nat)
    requires MaximalRun(line, n) && MaximalRun(line, m)
    ensures n == m
  {
    var k := if n < m then n else m;
    assert line[k..] != [] ==> line[k..][0] == line[k];
    assert forall j :: 0 <= j <= |line| && k < j ==> line[k] in line[..j];
  }

  // n is the number of all digits at the start of the line.
  lemma NumRangeStep(elems: seq<Elem>, line: Text, n: nat)
    requires elems != [] && elems[0].NumRange?
    requires MaximalRun(line, n)
    ensures Accepts(elems, line) <==>
      n > 0 && InRange(Number(line[..n]), elems[0].from, elems[0].to) && Accepts(elems[1..], line[n..])
  {
    if n > 0 && InRange(Number(line[..n]), elems[0].from, elems[0].to) && Accepts(elems[1..], line[n..]) {
      assert Cut(elems, line, n);
    }
    if Accepts(elems, line) {
      var m := FirstCut(elems, line);
      OneMaximalRun(line, n, m);
    }
  }

  // "**" or "*" either matches nothing, or takes one more character.
  lemma SeqStep(elems: seq<Elem>, line: Text)
    requires elems != [] && (elems[0].AnySeq? || elems[0].CommonSeq?)
    ensures Accepts(elems, line) <==>
      || Accepts(elems[1..], line)
      || (line != [] && (elems[0].CommonSeq? ==> line[0] != '.') && Accepts(elems, line[1..]))
  {
    if Accepts(elems[1..], line) {
      assert line[0..] == line && line[..0] == [];
      assert Cut(elems, line, 0);
    }
    if line != [] && (elems[0].CommonSeq? ==> line[0] != '.') && Accepts(elems, line[1..]) {
      var n := FirstCut(elems, line[1..]);
      assert line[1..][n..] == line[n + 1..] && line[..n + 1] == [line[0]] + line[1..][..n];
      assert Cut(elems, line, n + 1);
    }
    if Accepts(elems, line) {
      var n := FirstCut(elems, line);
      if n == 0 {
        assert line[0..] == line;
      } else {
        assert line[1..][n - 1..] == line[n..] && line[..n] == [line[0]] + line[1..][..n - 1];
        assert Cut(elems, line[1..], n - 1);
      }
    }
  }
}
