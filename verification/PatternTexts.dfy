/** What pattern texts mean, whatever the tokenizer does on the way. */
module PatternTexts {
  import opened Patterns
  import opened PatternMatchers

  ghost predicate HasTwoDots(s: Text) {
    exists i :: 0 <= i < |s| - 1 && s[i] == '.' && s[i + 1] == '.'
  }

  ghost predicate ContainsWildcards(s: Text) {
    '?' in s || '*' in s || '\\' in s || '{' in s || HasTwoDots(s)
  }

  predicate OccursAt(text: Text, line: Text, i: nat) {
    i + |text| <= |line| && line[i..i + |text|] == text
  }

  ghost predicate Occurs(text: Text, line: Text) {
    exists i: nat :: OccursAt(text, line, i)
  }

  ghost predicate MatchesOnly(elems: seq<Elem>, text: Text) {
    forall line :: IsMatch(elems, line) <==> line == text
  }

  ghost predicate MatchesAround(elems: seq<Elem>, text: Text) {
    forall line :: IsMatch(elems, line) <==> Occurs(text, line)
  }

  // The elements of the pattern text match the lines in which `text` stands: as the whole line or somewhere.
  ghost predicate Means(pattern: Text, dotted: bool, text: Text) {
    var whole, part := Compiled(pattern, dotted, true), Compiled(pattern, dotted, false);
    && whole.Ok? && part.Ok?
    && MatchesOnly(whole.value[..|whole.value| - 1], text)
    && MatchesAround(part.value[..|part.value| - 1], text)
  }

  // ---------- lines that match one literal ----------

  lemma AcceptsNothing(line: Text)
    ensures Accepts([], line) <==> line == []
  {
  }

  lemma AcceptsLiteral(text: Text, line: Text)
    ensures Accepts([LiteralString(text)], line) <==> line == text
  {
    assert [LiteralString(text)] + [End] == [LiteralString(text), End];
    LastLiteral(text, line);
    EndAddsNothing([LiteralString(text)], line);
  }

  lemma AcceptsAnySeq(line: Text)
    ensures Accepts([AnySeq], line)
  {
    assert [AnySeq] + [End] == [AnySeq, End];
    LastAnySeq(line);
    EndAddsNothing([AnySeq], line);
  }

  lemma AcceptsOccurrence(text: Text, line: Text)
    ensures Accepts([AnySeq, LiteralString(text), AnySeq], line) <==> Occurs(text, line)
  {
    var elems := [AnySeq, LiteralString(text), AnySeq];
    var tail := [LiteralString(text), AnySeq];
    assert elems[1..] == tail && tail[1..] == [AnySeq];
    forall n: nat | n <= |line|
      ensures Accepts(tail, line[n..]) <==> OccursAt(text, line, n)
    {
      LiteralStep(tail, line[n..], text);
      if n + |text| <= |line| {
        assert line[n..][..|text|] == line[n..n + |text|];
        AcceptsAnySeq(line[n..][|text|..]);
      }
    }
    if Occurs(text, line) {
      var i: nat :| OccursAt(text, line, i);
      assert Cut(elems, line, i);
    }
    if Accepts(elems, line) {
      var n := FirstCut(elems, line);
      assert OccursAt(text, line, n);
    }
  }

  function OneLiteral(text: Text): seq<Elem> {
    if text == [] then [] else [LiteralString(text)]
  }

  lemma LiteralMatchesOnly(text: Text)
    ensures MatchesOnly(OneLiteral(text), text)
  {
    forall line
      ensures IsMatch(OneLiteral(text), line) <==> line == text
    {
      AcceptsIffSplits(OneLiteral(text), line);
      AcceptsNothing(line);
      AcceptsLiteral(text, line);
    }
  }

  lemma LiteralMatchesAround(text: Text)
    ensures MatchesAround(Widened(OneLiteral(text)), text)
  {
    var wide := if text == [] then [AnySeq] else [AnySeq, LiteralString(text), AnySeq];
    assert Widened(OneLiteral(text)) == wide;
    forall line
      ensures IsMatch(wide, line) <==> Occurs(text, line)
    {
      AcceptsIffSplits(wide, line);
      AcceptsAnySeq(line);
      AcceptsOccurrence(text, line);
      assert text == [] ==> OccursAt(text, line, 0);
    }
  }

  // A pattern that reads as one literal, or as nothing, means its text.
  lemma LiteralMeansText(pattern: Text, dotted: bool, text: Text)
    requires Tokens(pattern, dotted, false) == Ok(OneLiteral(text))
    ensures Means(pattern, dotted, text)
  {
    var elems, wide := OneLiteral(text), Widened(OneLiteral(text));
    assert (elems + [End])[..|elems + [End]| - 1] == elems;
    assert (wide + [End])[..|wide + [End]| - 1] == wide;
    LiteralMatchesOnly(text);
    LiteralMatchesAround(text);
  }

  // ---------- texts without wildcards ----------

  lemma RangeHasTwoDots(s: Text, closing: char)
    requires s != [] && NumRangeAt(s, closing).Some?
    ensures HasTwoDots(s)
  {
    var i := 1 + DigitCount(s[1..]);
    assert s[i] == s[1..][i - 1..][0] && s[i + 1] == s[1..][i - 1..][1];
  }

  lemma PlainFacts(s: Text)
    requires !ContainsWildcards(s) && s != []
    ensures !IsSpecial(s[0]) && s[0] != '\\' && NumRangeAt(s, ']').None? && !ContainsWildcards(s[1..])
  {
    assert s[0] in s;
    var tail := s[1..];
    assert forall i :: 0 <= i < |tail| ==> tail[i] == s[i + 1];
    assert forall c :: c in tail ==> c in s;
    if NumRangeAt(s, ']').Some? {
      RangeHasTwoDots(s, ']');
    }
  }

  lemma {:induction false} PlainIsLiteral(s: Text)
    requires !ContainsWildcards(s)
    ensures LiteralAt(s) == Parsed(s, [])
  {
    if s != [] {
      PlainFacts(s);
      PlainIsLiteral(s[1..]);
      assert [s[0]] + s[1..] == s;
    }
  }

  // A text without wildcards matches exactly itself; in substring mode, the lines in which it occurs. So
  // comparing strings may replace the matcher.
  lemma PlainTextMeansItself(text: Text, dotted: bool)
    requires !ContainsWildcards(text)
    ensures Means(text, dotted, text)
  {
    PlainIsLiteral(text);
    if text != [] {
      PlainFacts(text);
      ThenOne(text, dotted);
    }
    LiteralMeansText(text, dotted, text);
  }

  lemma ThenOne(pattern: Text, dotted: bool)
    requires pattern != [] && LiteralAt(pattern).Parsed? && LiteralAt(pattern).rest == []
    requires !IsSpecial(pattern[0])
    ensures Tokens(pattern, dotted, false) == Ok([LiteralString(LiteralAt(pattern).found)])
  {
    var e := LiteralString(LiteralAt(pattern).found);
    assert ElemAt(pattern, dotted, false) == Parsed(e, []);
    assert Tokens([], dotted, true) == Ok([]);
    assert [e] + [] == [e];
  }

  // ---------- escaped texts ----------

  function Escaped(text: Text): Text {
    if text == [] then [] else ['\\', text[0]] + Escaped(text[1..])
  }

  lemma {:induction false} EscapedIsLiteral(text: Text)
    ensures LiteralAt(Escaped(text)) == Parsed(text, [])
  {
    if text != [] {
      var s := Escaped(text);
      var t := s[1..];
      EscapedIsLiteral(text[1..]);
      assert t[0] == text[0] && t[1..] == Escaped(text[1..]);
      assert Escaped(text[1..]) != [] ==> Escaped(text[1..])[0] == '\\';
      assert DigitCount(t[1..]) == 0;
      assert t[1..][0..] == t[1..];
      assert NumRangeAt(t, ']').None?;
      assert [text[0]] + text[1..] == text;
    }
  }

  // A backslash in front of every character takes away all special meaning, in every text.
  lemma EscapedTextMeansItself(text: Text, dotted: bool)
    ensures Means(Escaped(text), dotted, text)
  {
    EscapedIsLiteral(text);
    if text != [] {
      ThenOne(Escaped(text), dotted);
    }
    LiteralMeansText(Escaped(text), dotted, text);
  }

  // A backslash makes the next character one of the literal, whatever it is, exactly if that is not the bracket of
  // a range of numbers.
  lemma BackslashEscapes(s: Text)
    requires s != []
    ensures LiteralAt(['\\'] + s) == After([s[0]], LiteralAt(s[1..])) <==> !(s[0] == '[' && NumRangeAt(s, ']').Some?)
  {
    var escaped := ['\\'] + s;
    assert escaped[1..] == s && escaped != ['\\'];
    LiteralOne(escaped, s);
  }

  // In front of the bracket it changes nothing: a range of numbers stays one.
  lemma BackslashBeforeRange(s: Text, dotted: bool)
    requires s != [] && s[0] == '[' && NumRangeAt(s, ']').Some?
    ensures Tokens(['\\'] + s, dotted, false) == Tokens(s, dotted, false)
  {
    var escaped := ['\\'] + s;
    assert escaped[1..] == s && escaped != ['\\'];
    LiteralOne(escaped, s);
    LiteralOne(s, s);
    assert ElemAt(escaped, dotted, false) == Parsed(LiteralString(['[']), s) == ElemAt(s, dotted, false);
  }

  // ---------- paths ----------

  function Dots(s: Text): nat {
    if s == [] then 0 else (if s[0] == '.' then 1 else 0) + Dots(s[1..])
  }

  lemma {:induction false} DotsJoin(s: Text, t: Text)
    ensures Dots(s + t) == Dots(s) + Dots(t)
  {
    if s == [] {
      assert s + t == t;
    } else {
      assert (s + t)[1..] == s[1..] + t;
      DotsJoin(s[1..], t);
    }
  }

  lemma {:induction false} NoDots(s: Text)
    requires '.' !in s
    ensures Dots(s) == 0
  {
    if s != [] {
      assert s[0] in s;
      assert forall c :: c in s[1..] ==> c in s;
      NoDots(s[1..]);
    }
  }

  predicate KeepsPath(e: Elem) {
    e.LiteralString? || e.CommonChar? || e.CommonSeq? || e.NumRange?
  }

  function LiteralDots(elems: seq<Elem>): nat {
    if elems == [] then 0
    else (if elems[0].LiteralString? then Dots(elems[0].text) else 0) + LiteralDots(elems[1..])
  }

  // Without "**" and sets, a pattern in dotted mode matches only paths with as many dots as it has itself: "?",
  // "*" and ranges of numbers stay within one component.
  lemma {:induction false} StaysInComponents(elems: seq<Elem>, line: Text)
    requires Accepts(elems, line) && forall e :: e in elems ==> KeepsPath(e)
    ensures Dots(line) == LiteralDots(elems)
  {
    if elems != [] {
      var n := FirstCut(elems, line);
      var piece := line[..n];
      assert elems[0] in elems && forall e :: e in elems[1..] ==> e in elems;
      StaysInComponents(elems[1..], line[n..]);
      assert piece + line[n..] == line;
      DotsJoin(piece, line[n..]);
      if !elems[0].LiteralString? {
        NoDots(piece);
      }
    }
  }
}
