/** What a set of characters means, told on the characters between its braces. */
module PatternSets {
  import opened Patterns
  import opened PatternForms
  import opened PatternMatchers
  import opened PatternTexts

  predicate IsBetween(c: char, low: char, high: char) {
    Code(low) <= Code(c) <= Code(high)
  }

  // The text lists the character: itself, or in a range with a dash between its ends.
  predicate Lists(body: Text, c: char) {
    if body == [] then false
    else if |body| >= 3 && body[1] == '-' then IsBetween(c, body[0], body[2]) || Lists(body[3..], c)
    else IsBetween(c, body[0], body[0]) || Lists(body[1..], c)
  }

  // A closing brace can only be the first character.
  predicate IsBody(body: Text, first: bool) {
    if first then body != [] && '}' !in body[1..] else '}' !in body
  }

  // ---------- reading the text ----------

  lemma InSetAt(c: char, chars: Text, i: nat)
    requires 2 * i + 1 < |chars| && IsBetween(c, chars[2 * i], chars[2 * i + 1])
    ensures InSet(c, chars)
  {
  }

  lemma InSetMore(c: char, low: char, high: char, more: Text)
    requires |more| % 2 == 0
    ensures InSet(c, [low, high] + more) <==> IsBetween(c, low, high) || InSet(c, more)
  {
    var chars := [low, high] + more;
    if IsBetween(c, low, high) {
      InSetAt(c, chars, 0);
    }
    if i :| 0 <= i < |more| / 2 && Code(more[2 * i]) <= Code(c) <= Code(more[2 * i + 1]) {
      InSetAt(c, chars, i + 1);
    }
    if i :| 0 <= i < |chars| / 2 && Code(chars[2 * i]) <= Code(c) <= Code(chars[2 * i + 1]) {
      if i > 0 {
        InSetAt(c, more, i - 1);
      }
    }
  }

  // What is found in the text of a set, with the closing brace and the rest of a pattern behind it.
  ghost predicate ReadsAs(body: Text, first: bool, rest: Text, c: char) {
    var r := SetAt(body + (['}'] + rest), first);
    r.Parsed? && r.rest == rest && (InSet(c, r.found) <==> Lists(body, c))
  }

  lemma BodyTail(body: Text, first: bool, n: nat)
    requires IsBody(body, first) && 0 < n <= |body|
    ensures IsBody(body[n..], false)
  {
    assert first ==> forall c :: c in body[n..] ==> c in body[1..];
    assert !first ==> forall c :: c in body[n..] ==> c in body;
  }

  lemma SingleRead(body: Text, first: bool, rest: Text, c: char)
    requires body != [] && IsBody(body, first) && !(|body| >= 3 && body[1] == '-')
    requires ReadsAs(body[1..], false, rest, c)
    ensures ReadsAs(body, first, rest, c)
  {
    var tail := body[1..] + (['}'] + rest);
    assert body + (['}'] + rest) == [body[0]] + tail;
    assert tail[0] == if |body| > 1 then body[1] else '}';
    assert |body| == 2 ==> tail[1] == '}';
    assert !first ==> body[0] in body;
    SetSingle(body[0], tail, first);
    InSetMore(c, body[0], body[0], SetAt(tail, false).found);
  }

  lemma RangeRead(body: Text, first: bool, rest: Text, c: char)
    requires |body| >= 3 && IsBody(body, first) && body[1] == '-'
    requires ReadsAs(body[3..], false, rest, c)
    ensures ReadsAs(body, first, rest, c)
  {
    var tail := body[3..] + (['}'] + rest);
    assert body + (['}'] + rest) == [body[0], '-', body[2]] + tail;
    assert !first ==> body[0] in body && body[2] in body;
    assert first ==> body[2] == body[1..][1];
    SetRange(body[0], body[2], tail, first);
    InSetMore(c, body[0], body[2], SetAt(tail, false).found);
  }

  lemma {:induction false} BodyRead(body: Text, first: bool, rest: Text, c: char)
    requires IsBody(body, first)
    ensures ReadsAs(body, first, rest, c)
    decreases |body|
  {
    if body == [] {
      assert body + (['}'] + rest) == ['}'] + rest;
      SetEnds(rest);
    } else if |body| >= 3 && body[1] == '-' {
      BodyTail(body, first, 3);
      BodyRead(body[3..], false, rest, c);
      RangeRead(body, first, rest, c);
    } else {
      BodyTail(body, first, 1);
      BodyRead(body[1..], false, rest, c);
      SingleRead(body, first, rest, c);
    }
  }

  // ---------- matching ----------

  lemma OneElem(pattern: Text, dotted: bool, e: Elem, line: Text)
    requires pattern != [] && ElemAt(pattern, dotted, false) == Parsed(e, []) && IsOneChar(e)
    ensures var compiled := Compiled(pattern, dotted, true);
      compiled.Ok? && (IsMatch(compiled.value, line) <==> |line| == 1 && Fits(e, line, []))
  {
    assert Tokens([], dotted, e.LiteralString?) == Ok([]) && [e] + [] == [e];
    assert Tokens(pattern, dotted, false) == Ok([e]);
    WithoutEnd([e], line);
    AcceptsIffSplits([e], line);
    OneCharStep([e], line);
    if line != [] {
      AcceptsNothing(line[1..]);
      assert line[1..] == [] ==> line[..1] == line;
    }
  }

  lemma BracedSet(s: Text, dotted: bool)
    requires SetAt(s, true).Parsed? && s[0] != '^' && NumRangeAt(['{'] + s, '}').None?
    ensures var found := SetAt(s, true);
      ElemAt(['{'] + s, dotted, false) == Parsed(CharSet(found.found), found.rest)
  {
    Dropped(['{'], s);
  }

  lemma ListedMatches(pattern: Text, body: Text, dotted: bool, chars: Text, line: Text)
    requires pattern != [] && ElemAt(pattern, dotted, false) == Parsed(CharSet(chars), [])
    requires line != [] ==> (InSet(line[0], chars) <==> Lists(body, line[0]))
    ensures var compiled := Compiled(pattern, dotted, true);
      compiled.Ok? && (IsMatch(compiled.value, line) <==> |line| == 1 && Lists(body, line[0]))
  {
    OneElem(pattern, dotted, CharSet(chars), line);
  }

  // A set in braces matches exactly one character that it lists, unless it is a range of numbers.
  lemma SetMatches(body: Text, dotted: bool, line: Text)
    requires IsBody(body, true) && body[0] != '^' && NumRangeAt(['{'] + (body + ['}']), '}').None?
    ensures var compiled := Compiled(['{'] + (body + ['}']), dotted, true);
      compiled.Ok? && (IsMatch(compiled.value, line) <==> |line| == 1 && Lists(body, line[0]))
  {
    var s := body + ['}'];
    assert s == body + (['}'] + []);
    BodyRead(body, true, [], if line == [] then 'a' else line[0]);
    BracedSet(s, dotted);
    ListedMatches(['{'] + s, body, dotted, SetAt(s, true).found, line);
  }

  // A negated set matches exactly one character that it does not list.
  lemma NegatedSetMatches(body: Text, dotted: bool, line: Text)
    requires IsBody(body, true)
    ensures var compiled := Compiled(['{', '^'] + (body + ['}']), dotted, true);
      compiled.Ok? && (IsMatch(compiled.value, line) <==> |line| == 1 && !Lists(body, line[0]))
  {
    var s := body + ['}'];
    var pattern := ['{', '^'] + s;
    assert s == body + (['}'] + []);
    var c := if line == [] then 'a' else line[0];
    BodyRead(body, true, [], c);
    BracedNegation(s, dotted, false);
    OneElem(pattern, dotted, NegSet(SetAt(s, true).found), line);
  }
}
