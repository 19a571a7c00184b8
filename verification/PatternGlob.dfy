/** What the wildcards of a pattern text mean, told on the characters of the text alone. */
module PatternGlobs {
  import opened Patterns
  import opened PatternMatchers
  import opened PatternTexts

  // A text in which nothing is escaped, in braces or a range of numbers in brackets.
  ghost predicate IsBare(s: Text) {
    '{' !in s && '\\' !in s && ('[' in s ==> !HasTwoDots(s))
  }

  predicate IsTwoStars(s: Text) {
    |s| > 1 && s[0] == '*' && s[1] == '*'
  }

  // The bare text matches the line: "?" one character, "*" any run of characters, both without a dot in dotted
  // mode; "**" any run of characters; every other character itself.
  predicate Globs(text: Text, dotted: bool, line: Text)
    decreases |text|, |line|
  {
    if text == [] then line == []
    else if IsTwoStars(text) then
      Globs(text[2..], dotted, line) || (line != [] && Globs(text, dotted, line[1..]))
    else if text[0] == '*' then
      || Globs(text[1..], dotted, line)
      || (line != [] && !(dotted && line[0] == '.') && Globs(text, dotted, line[1..]))
    else
      && line != []
      && (if text[0] == '?' then !(dotted && line[0] == '.') else line[0] == text[0])
      && Globs(text[1..], dotted, line[1..])
  }

  // ---------- reading bare texts ----------

  lemma BareTail(s: Text, n: nat)
    requires IsBare(s) && n <= |s|
    ensures IsBare(s[n..])
  {
    var t := s[n..];
    assert forall c :: c in t ==> c in s;
    assert forall i :: 0 <= i < |t| ==> t[i] == s[i + n];
  }

  lemma BareFirst(s: Text)
    requires IsBare(s) && s != []
    ensures s[0] != '{' && s[0] != '\\' && (s[0] == '[' ==> NumRangeAt(s, ']').None?)
  {
    assert s[0] in s;
    if s[0] == '[' && NumRangeAt(s, ']').Some? {
      RangeHasTwoDots(s, ']');
    }
  }

  lemma FirstOf(s: Text, found: Text, rest: Text)
    requires s != [] && found + rest == s[1..]
    ensures ([s[0]] + found) + rest == s
  {
    assert ([s[0]] + found) + rest == [s[0]] + (found + rest);
  }

  // A literal is read up to the next wildcard, and means its characters one by one.
  lemma {:induction false} BareLiteral(s: Text)
    requires IsBare(s)
    ensures var r := LiteralAt(s);
      && r.Parsed? && r.found + r.rest == s && (r.found == [] <==> s == [] || IsSpecial(s[0]))
    decreases |s|
  {
    if s != [] && !IsSpecial(s[0]) {
      BareFirst(s);
      BareTail(s, 1);
      BareLiteral(s[1..]);
      LiteralOne(s, s);
      FirstOf(s, LiteralAt(s[1..]).found, LiteralAt(s[1..]).rest);
    }
  }

  lemma {:induction false} LiteralGlobs(s: Text, dotted: bool, line: Text)
    requires IsBare(s)
    ensures var r := LiteralAt(s);
      && r.Parsed? && |r.rest| <= |s|
      && (Globs(s, dotted, line) <==>
          |r.found| <= |line| && line[..|r.found|] == r.found && Globs(r.rest, dotted, line[|r.found|..]))
    decreases |s|
  {
    if s == [] || IsSpecial(s[0]) {
      assert line[0..] == line && line[..0] == [];
    } else {
      BareFirst(s);
      BareTail(s, 1);
      BareLiteral(s[1..]);
      LiteralOne(s, s);
      if line != [] {
        LiteralGlobs(s[1..], dotted, line[1..]);
        FirstThenLiteral(s[0], LiteralAt(s[1..]).found, line);
      }
    }
  }

  lemma FirstThenLiteral(c: char, text: Text, line: Text)
    requires line != []
    ensures var found := [c] + text;
      && (|found| <= |line| && line[..|found|] == found <==>
          line[0] == c && |text| <= |line[1..]| && line[1..][..|text|] == text)
      && (|found| <= |line| ==> line[|found|..] == line[1..][|text|..])
  {
    var found := [c] + text;
    if |found| <= |line| {
      assert line[..|found|] == [line[0]] + line[1..][..|text|];
      assert found[1..] == text;
    }
  }

  // A single element read from a bare text.
  lemma BareElem(s: Text, dotted: bool, afterLiteral: bool)
    requires IsBare(s) && s != []
    ensures var r := ElemAt(s, dotted, afterLiteral);
      r.Parsed? && |r.rest| < |s| && IsBare(r.rest) && !r.found.NumRange?
  {
    BareFirst(s);
    BareTail(s, 1);
    if IsTwoStars(s) {
      BareTail(s, 2);
    } else if !IsSpecial(s[0]) {
      BareLiteral(s);
      var r := LiteralAt(s);
      BareTail(s, |r.found|);
      assert r.rest == s[|r.found|..];
    }
  }

  // The elements after the first match as the rest of the text does.
  ghost predicate Agree(elems: seq<Elem>, text: Text, dotted: bool) {
    forall line :: Accepts(elems, line) <==> Globs(text, dotted, line)
  }

  lemma {:induction false} SeqGlobs(elems: seq<Elem>, s: Text, rest: Text, dotted: bool, line: Text)
    requires elems != [] && s != [] && s[0] == '*' && Agree(elems[1..], rest, dotted)
    requires if IsTwoStars(s) then elems[0] == AnySeq && rest == s[2..]
             else elems[0] == (if dotted then CommonSeq else AnySeq) && rest == s[1..]
    ensures Accepts(elems, line) <==> Globs(s, dotted, line)
    decreases |line|
  {
    SeqStep(elems, line);
    if line != [] {
      SeqGlobs(elems, s, rest, dotted, line[1..]);
    }
  }

  lemma ElemGlobs(s: Text, dotted: bool, afterLiteral: bool, elems: seq<Elem>, line: Text)
    requires IsBare(s) && s != [] && ElemAt(s, dotted, afterLiteral).Parsed?
    requires elems != [] && elems[0] == ElemAt(s, dotted, afterLiteral).found
    requires Agree(elems[1..], ElemAt(s, dotted, afterLiteral).rest, dotted)
    ensures Accepts(elems, line) <==> Globs(s, dotted, line)
  {
    BareFirst(s);
    var rest := ElemAt(s, dotted, afterLiteral).rest;
    if s[0] == '*' {
      SeqGlobs(elems, s, rest, dotted, line);
    } else if s[0] == '?' {
      OneCharStep(elems, line);
    } else {
      LiteralGlobs(s, dotted, line);
      LiteralStep(elems, line, elems[0].text);
    }
  }

  lemma {:induction false} TokensGlob(s: Text, dotted: bool, afterLiteral: bool)
    requires IsBare(s)
    ensures var r := Tokens(s, dotted, afterLiteral);
      r.Ok? && Agree(r.value, s, dotted) && forall e :: e in r.value ==> !e.NumRange?
    decreases |s|
  {
    if s == [] {
      forall line
        ensures Accepts([], line) <==> Globs(s, dotted, line)
      {
        AcceptsNothing(line);
      }
    } else {
      BareElem(s, dotted, afterLiteral);
      var r := ElemAt(s, dotted, afterLiteral);
      TokensGlob(r.rest, dotted, r.found.LiteralString?);
      var more := Tokens(r.rest, dotted, r.found.LiteralString?).value;
      var elems := [r.found] + more;
      assert elems[1..] == more;
      forall line
        ensures Accepts(elems, line) <==> Globs(s, dotted, line)
      {
        ElemGlobs(s, dotted, afterLiteral, elems, line);
      }
    }
  }

  // In both modes a bare text is accepted as a pattern and matches what its characters say.
  lemma BareTextGlobs(text: Text, dotted: bool, line: Text)
    requires IsBare(text)
    ensures Compiled(text, dotted, true).Ok?
    ensures IsMatch(Compiled(text, dotted, true).value, line) <==> Globs(text, dotted, line)
  {
    TokensGlob(text, dotted, false);
    var elems := Tokens(text, dotted, false).value;
    AcceptsIffSplits(elems + [End], line);
    EndAddsNothing(elems, line);
  }

  // ---------- paths ----------

  // A text of letters, "?" and single "*" only: nothing is escaped, in brackets or in braces.
  ghost predicate IsSimple(s: Text) {
    && '{' !in s && '[' !in s && '\\' !in s
    && forall i :: 0 <= i < |s| - 1 ==> !(s[i] == '*' && s[i + 1] == '*')
  }

  lemma {:induction false} GlobKeepsDots(text: Text, line: Text)
    requires IsSimple(text) && Globs(text, true, line)
    ensures Dots(line) == Dots(text)
    decreases |text|, |line|
  {
    if text != [] {
      var t := text[1..];
      assert forall c :: c in t ==> c in text;
      assert forall i :: 0 <= i < |t| ==> t[i] == text[i + 1];
      if text[0] != '*' {
        GlobKeepsDots(t, line[1..]);
      } else if Globs(t, true, line) {
        GlobKeepsDots(t, line);
      } else {
        GlobKeepsDots(text, line[1..]);
      }
    }
  }

  // In dotted mode a simple pattern text matches only lines with exactly as many dots as it has itself: no wildcard
  // but "**" crosses a dot.
  lemma SimpleTextStaysInComponents(text: Text, line: Text)
    requires IsSimple(text)
    ensures Compiled(text, true, true).Ok?
    ensures IsMatch(Compiled(text, true, true).value, line) ==> Dots(line) == Dots(text)
  {
    BareTextGlobs(text, true, line);
    if Globs(text, true, line) {
      GlobKeepsDots(text, line);
    }
  }
}
