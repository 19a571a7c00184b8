/** Which lists of elements have a pattern text, and a text for each of them. */
module PatternForms {
  import opened Patterns
  import opened PatternMatchers
  import opened PatternTexts
  import opened Wrappers

  // ---------- texts for elements ----------

  function Digit(d: nat): char
    requires d < 10
  {
    '0' + d as char
  }

  function Decimal(n: nat): (s: Text)
    ensures s != [] && forall c :: c in s ==> IsDigit(c)
  {
    if n < 10 then [Digit(n)] else Decimal(n / 10) + [Digit(n % 10)]
  }

  // One end of a range of numbers; nothing if it is open.
  function EndText(n: int): (s: Text)
    ensures forall c :: c in s ==> IsDigit(c)
  {
    if n < 0 then [] else Decimal(n)
  }

  predicate IsPair(chars: Text, c: char) {
    |chars| >= 2 && chars[0] == c && chars[1] == c
  }

  predicate IsDashes(chars: Text) {
    |chars| == 2 && IsPair(chars, '-')
  }

  // The pairs of a set with the closing brace, and then the rest of a pattern. Ranges are always written out, but a
  // closing brace as the first character stands for itself.
  function PairsText(chars: Text, rest: Text): Text
    requires |chars| % 2 == 0
  {
    if chars == [] then ['}'] + rest
    else if IsPair(chars, '}') then
      ['}'] + (if IsDashes(chars[2..]) then ['-', '}'] + rest else PairsText(chars[2..], rest))
    else [chars[0], '-', chars[1]] + PairsText(chars[2..], rest)
  }

  // A backslash in front of every character.
  function LiteralText(text: Text, rest: Text): Text {
    if text == [] then rest else ['\\', text[0]] + LiteralText(text[1..], rest)
  }

  // Both ends of a range, and then the rest of a pattern from the closing character on.
  function EndsText(from: int, to: int, rest: Text): Text {
    EndText(from) + (['.', '.'] + (EndText(to) + rest))
  }

  function RangeText(from: int, to: int, rest: Text): Text {
    ['{'] + EndsText(from, to, ['}'] + rest)
  }

  function BracketText(from: int, to: int, rest: Text): Text {
    ['['] + EndsText(from, to, [']'] + rest)
  }

  // The text of an element, and then the rest of a pattern.
  function ElemText(e: Elem, rest: Text): Text
    requires SetsPaired(e)
  {
    match e
    case LiteralString(text) => LiteralText(text, rest)
    case AnyChar | CommonChar => ['?'] + rest
    case AnySeq => ['*', '*'] + rest
    case CommonSeq => ['*'] + rest
    case CharSet(chars) => ['{'] + PairsText(chars, rest)
    case NegSet(chars) => ['{', '^'] + PairsText(chars, rest)
    case NumRange(from, to) => RangeText(from, to, rest)
    case End => rest
  }

  function Printed(elems: seq<Elem>): Text
    requires forall e :: e in elems ==> SetsPaired(e)
  {
    if elems == [] then [] else ElemText(elems[0], Printed(elems[1..]))
  }

  // ---------- the normal form ----------

  // A closing brace can only be the first character of a set, and only the start of a range; there it may be taken
  // for one if a dash follows.
  predicate IsSet(chars: Text) {
    && chars != [] && |chars| % 2 == 0
    && (chars[1] == '}' ==> chars[0] == '}' && (|chars| > 2 && chars[2] == '-' ==> IsDashes(chars[2..])))
    && '}' !in chars[2..]
  }

  predicate IsWritable(e: Elem, dotted: bool) {
    match e
    case LiteralString(text) => text != []
    case AnyChar => !dotted
    case CommonChar => dotted
    case AnySeq => true
    case CommonSeq => dotted
    case CharSet(chars) => IsSet(chars) && chars[0] != '^'
    case NegSet(chars) => IsSet(chars)
    case NumRange(from, to) => from >= -1 && to >= -1
    case End => false
  }

  // Literals are as long as possible, and no asterisk follows a single one.
  predicate MayFollow(e: Elem, next: Elem) {
    && !(e.LiteralString? && next.LiteralString?)
    && !(e.CommonSeq? && (next.CommonSeq? || next.AnySeq?))
  }

  ghost predicate IsNormal(elems: seq<Elem>, dotted: bool) {
    && (forall e :: e in elems ==> IsWritable(e, dotted))
    && (forall i :: 0 <= i < |elems| - 1 ==> MayFollow(elems[i], elems[i + 1]))
  }

  lemma NormalTail(elems: seq<Elem>, dotted: bool)
    requires IsNormal(elems, dotted) && elems != []
    ensures IsNormal(elems[1..], dotted) && (|elems| > 1 ==> MayFollow(elems[0], elems[1..][0]))
  {
    var t := elems[1..];
    assert forall e :: e in t ==> e in elems;
    assert forall i :: 0 <= i < |t| ==> t[i] == elems[i + 1];
  }

  lemma NormalCons(e: Elem, elems: seq<Elem>, dotted: bool)
    requires IsWritable(e, dotted) && IsNormal(elems, dotted) && (elems != [] ==> MayFollow(e, elems[0]))
    ensures IsNormal([e] + elems, dotted)
  {
    var r := [e] + elems;
    forall i | 0 <= i < |r| - 1
      ensures MayFollow(r[i], r[i + 1])
    {
      assert i > 0 ==> r[i] == elems[i - 1] && r[i + 1] == elems[i];
    }
  }

  // ---------- reading numbers and sets back ----------

  lemma {:induction false} DecimalReadsBack(n: nat)
    ensures Number(Decimal(n)) == n
  {
    var s := Decimal(n);
    assert s[|s| - 1] in s;
    if n >= 10 {
      DecimalReadsBack(n / 10);
      assert s[..|s| - 1] == Decimal(n / 10);
    } else {
      assert s[..0] == [];
      assert Number(s[..|s| - 1]) == 0;
    }
  }

  lemma {:induction false} DigitsCounted(digits: Text, rest: Text)
    requires (forall c :: c in digits ==> IsDigit(c)) && (rest != [] ==> !IsDigit(rest[0]))
    ensures DigitCount(digits + rest) == |digits|
  {
    if digits == [] {
      assert digits + rest == rest;
    } else {
      assert digits[0] in digits && (digits + rest)[1..] == digits[1..] + rest;
      assert forall c :: c in digits[1..] ==> c in digits;
      DigitsCounted(digits[1..], rest);
    }
  }

  lemma EndReadsBack(n: int, rest: Text)
    requires n >= -1 && (rest != [] ==> !IsDigit(rest[0]))
    ensures DigitCount(EndText(n) + rest) == |EndText(n)| && LeadingNumber(EndText(n) + rest) == n
  {
    DigitsCounted(EndText(n), rest);
    assert (EndText(n) + rest)[..|EndText(n)|] == EndText(n);
    if n >= 0 {
      DecimalReadsBack(n);
    }
  }

  lemma Dropped(a: Text, b: Text)
    ensures (a + b)[|a|..] == b
  {
  }

  lemma RangeOf(opening: char, t: Text, u: Text, v: Text, w: Text, closing: char)
    requires u == t[DigitCount(t)..] && |u| >= 2 && u[0] == '.' && u[1] == '.'
    requires v == u[2..] && w == v[DigitCount(v)..] && w != [] && w[0] == closing
    ensures NumRangeAt([opening] + t, closing) == Some(Range(LeadingNumber(t), LeadingNumber(v), w))
  {
    Dropped([opening], t);
  }

  // Both forms of a range, "{n..m}" and "[n..m]", are read as its ends.
  lemma RangeReadsBack(opening: char, from: int, to: int, closing: char, rest: Text)
    requires from >= -1 && to >= -1 && !IsDigit(closing)
    ensures NumRangeAt([opening] + EndsText(from, to, [closing] + rest), closing)
         == Some(Range(from, to, [closing] + rest))
  {
    var w := [closing] + rest;
    var v := EndText(to) + w;
    var u := ['.', '.'] + v;
    EndReadsBack(from, u);
    EndReadsBack(to, w);
    Dropped(EndText(from), u);
    Dropped(['.', '.'], v);
    Dropped(EndText(to), w);
    RangeOf(opening, EndText(from) + u, u, v, w, closing);
  }

  lemma SetEnds(rest: Text)
    ensures SetAt(['}'] + rest, false) == Parsed([], rest)
  {
    Dropped(['}'], rest);
  }

  lemma SetSingle(c: char, s: Text, first: bool)
    requires first || c != '}'
    requires |s| >= 2 && s[0] == '-' ==> s[1] == '}'
    ensures SetAt([c] + s, first) == After([c, c], SetAt(s, false))
  {
    var t := [c] + s;
    assert t[1..] == s && (|s| >= 1 ==> t[1] == s[0]) && (|s| >= 2 ==> t[2] == s[1]);
  }

  lemma SetRange(a: char, b: char, s: Text, first: bool)
    requires (first || a != '}') && b != '}'
    ensures SetAt([a, '-', b] + s, first) == After([a, b], SetAt(s, false))
  {
    var t := [a, '-', b] + s;
    assert t[3..] == s && t[0] == a && t[1] == '-' && t[2] == b;
  }

  lemma FirstPair(chars: Text)
    requires |chars| >= 2
    ensures [chars[0], chars[1]] + chars[2..] == chars
  {
  }

  lemma {:induction false} PairsReadBack(chars: Text, rest: Text)
    requires |chars| % 2 == 0 && '}' !in chars
    ensures SetAt(PairsText(chars, rest), false) == Parsed(chars, rest)
    decreases |chars|
  {
    if chars == [] {
      SetEnds(rest);
    } else {
      assert chars[0] in chars && chars[1] in chars;
      assert forall c :: c in chars[2..] ==> c in chars;
      PairsReadBack(chars[2..], rest);
      FirstPair(chars);
      SetRange(chars[0], chars[1], PairsText(chars[2..], rest), false);
    }
  }

  // The text of pairs starts with the first character.
  lemma PairsStart(chars: Text, rest: Text)
    requires |chars| % 2 == 0
    ensures |PairsText(chars, rest)| > 0
    ensures PairsText(chars, rest)[0] == if chars == [] then '}' else chars[0]
  {
  }

  lemma DashReadsBack(rest: Text)
    ensures SetAt(['-', '}'] + rest, false) == Parsed("--", rest)
  {
    SetEnds(rest);
    SetSingle('-', ['}'] + rest, false);
    assert ['-'] + (['}'] + rest) == ['-', '}'] + rest;
    assert ['-', '-'] + [] == "--";
  }

  lemma BraceFirstReadsBack(more: Text, rest: Text)
    requires |more| % 2 == 0 && '}' !in more && (more != [] && more[0] == '-' ==> IsDashes(more))
    ensures SetAt(PairsText(['}', '}'] + more, rest), true) == Parsed(['}', '}'] + more, rest)
  {
    var chars := ['}', '}'] + more;
    assert IsPair(chars, '}') && chars[2..] == more;
    if IsDashes(more) {
      assert more == "--";
      DashReadsBack(rest);
      SetSingle('}', ['-', '}'] + rest, true);
    } else {
      PairsReadBack(more, rest);
      PairsStart(more, rest);
      SetSingle('}', PairsText(more, rest), true);
    }
  }

  lemma SetReadsBack(chars: Text, rest: Text)
    requires IsSet(chars)
    ensures SetAt(PairsText(chars, rest), true) == Parsed(chars, rest)
  {
    var more := chars[2..];
    FirstPair(chars);
    if IsPair(chars, '}') {
      BraceFirstReadsBack(more, rest);
    } else {
      PairsReadBack(more, rest);
      SetRange(chars[0], chars[1], PairsText(more, rest), true);
    }
  }

  // ---------- reading elements back ----------

  lemma LiteralEscaped(c: char, t: Text)
    requires t != [] ==> t[0] == '\\' || t[0] == '[' || IsSpecial(t[0])
    ensures LiteralAt(['\\', c] + t) == After([c], LiteralAt(t))
  {
    var s := [c] + t;
    assert ['\\', c] + t == ['\\'] + s;
    NoTwoDots(s, ']');
    BackslashEscapes(s);
    Dropped([c], t);
  }

  lemma LiteralStart(text: Text, rest: Text)
    ensures text != [] ==> LiteralText(text, rest) != [] && LiteralText(text, rest)[0] == '\\'
    ensures text == [] ==> LiteralText(text, rest) == rest
  {
  }

  lemma {:induction false} LiteralReadsBack(text: Text, rest: Text)
    requires rest != [] ==> IsSpecial(rest[0])
    ensures LiteralAt(LiteralText(text, rest)) == Parsed(text, rest)
  {
    if text != [] {
      LiteralReadsBack(text[1..], rest);
      LiteralStart(text[1..], rest);
      LiteralEscaped(text[0], LiteralText(text[1..], rest));
      assert [text[0]] + text[1..] == text;
    }
  }

  // What may follow a text of e so that e is read.
  predicate Separate(e: Elem, rest: Text) {
    && (e.LiteralString? && rest != [] ==> IsSpecial(rest[0]))
    && (e.CommonSeq? && rest != [] ==> rest[0] != '*')
  }

  lemma NoTwoDots(s: Text, closing: char)
    requires s != [] && (|s| > 1 && IsDigit(s[1]) ==> |s| > 2 && s[2] == '-')
    requires |s| > 2 && s[1] == '.' ==> s[2] != '.'
    ensures NumRangeAt(s, closing).None?
  {
    var t := s[1..];
    if t != [] && IsDigit(t[0]) {
      var r := t[1..];
      assert r[0] == '-' && DigitCount(r) == 0 && DigitCount(t) == 1;
    } else {
      assert DigitCount(t) == 0 && t[0..] == t;
    }
  }

  // The text of a set starts with a pair in which a dash is the second character, or with a closing brace.
  lemma SetStart(chars: Text, rest: Text)
    requires IsSet(chars)
    ensures var p := PairsText(chars, rest);
      |p| > 1 && p[0] == chars[0] && (p[0] == '}' || p[1] == '-')
  {
    if IsPair(chars, '}') {
      PairsStart(chars[2..], rest);
    }
  }

  lemma CharSetReadsBack(chars: Text, rest: Text, dotted: bool, afterLiteral: bool)
    requires IsSet(chars) && chars[0] != '^'
    ensures ElemAt(['{'] + PairsText(chars, rest), dotted, afterLiteral) == Parsed(CharSet(chars), rest)
  {
    var p := PairsText(chars, rest);
    SetStart(chars, rest);
    SetReadsBack(chars, rest);
    BracedPairs(p, dotted, afterLiteral);
  }

  lemma BracedPairs(p: Text, dotted: bool, afterLiteral: bool)
    requires |p| > 1 && (p[0] == '}' || p[1] == '-')
    ensures ElemAt(['{'] + p, dotted, afterLiteral) == BracedAt(p)
  {
    Dropped(['{'], p);
    NoTwoDots(['{'] + p, '}');
  }

  lemma NegSetReadsBack(chars: Text, rest: Text, dotted: bool, afterLiteral: bool)
    requires IsSet(chars)
    ensures ElemAt(['{', '^'] + PairsText(chars, rest), dotted, afterLiteral) == Parsed(NegSet(chars), rest)
  {
    var p := PairsText(chars, rest);
    SetReadsBack(chars, rest);
    BracedNegation(p, dotted, afterLiteral);
  }

  lemma BracedNegation(p: Text, dotted: bool, afterLiteral: bool)
    requires SetAt(p, true).Parsed?
    ensures var found := SetAt(p, true);
      ElemAt(['{', '^'] + p, dotted, afterLiteral) == Parsed(NegSet(found.found), found.rest)
  {
    var s := ['{', '^'] + p;
    assert s[1..] == ['^'] + p && s[1] == '^';
    Dropped(['^'], p);
    NoTwoDots(s, '}');
  }

  lemma NumRangeReadsBack(from: int, to: int, rest: Text, dotted: bool, afterLiteral: bool)
    requires from >= -1 && to >= -1
    ensures ElemAt(RangeText(from, to, rest), dotted, afterLiteral) == Parsed(NumRange(from, to), rest)
  {
    RangeReadsBack('{', from, to, '}', rest);
    Dropped(['}'], rest);
  }

  lemma LiteralElemReadsBack(text: Text, rest: Text, dotted: bool, afterLiteral: bool)
    requires text != [] && (rest != [] ==> IsSpecial(rest[0]))
    ensures ElemAt(LiteralText(text, rest), dotted, afterLiteral) == Parsed(LiteralString(text), rest)
  {
    LiteralReadsBack(text, rest);
    LiteralStart(text, rest);
  }

  lemma WildcardReadsBack(e: Elem, rest: Text, dotted: bool, afterLiteral: bool)
    requires e in {AnyChar, CommonChar, AnySeq, CommonSeq} && IsWritable(e, dotted) && Separate(e, rest)
    ensures ElemAt(ElemText(e, rest), dotted, afterLiteral) == Parsed(e, rest)
  {
    Dropped(if e.AnySeq? then ['*', '*'] else if e.CommonSeq? then ['*'] else ['?'], rest);
  }

  lemma ElemReadsBack(e: Elem, rest: Text, dotted: bool, afterLiteral: bool)
    requires IsWritable(e, dotted) && SetsPaired(e) && Separate(e, rest)
    ensures ElemAt(ElemText(e, rest), dotted, afterLiteral) == Parsed(e, rest)
  {
    match e
    case LiteralString(text) => LiteralElemReadsBack(text, rest, dotted, afterLiteral);
    case CharSet(chars) => CharSetReadsBack(chars, rest, dotted, afterLiteral);
    case NegSet(chars) => NegSetReadsBack(chars, rest, dotted, afterLiteral);
    case NumRange(from, to) => NumRangeReadsBack(from, to, rest, dotted, afterLiteral);
    case AnyChar | CommonChar | AnySeq | CommonSeq => WildcardReadsBack(e, rest, dotted, afterLiteral);
  }

  // ---------- reading whole texts back ----------

  lemma ElemStart(e: Elem, rest: Text, dotted: bool)
    requires IsWritable(e, dotted) && SetsPaired(e)
    ensures var s := ElemText(e, rest);
      && s != [] && (e.LiteralString? || IsSpecial(s[0])) && (s[0] == '*' <==> e.AnySeq? || e.CommonSeq?)
  {
    if e.LiteralString? {
      LiteralStart(e.text, rest);
    }
  }

  lemma NextSeparate(e: Elem, elems: seq<Elem>, dotted: bool)
    requires IsNormal(elems, dotted) && (forall x :: x in elems ==> SetsPaired(x))
    requires elems != [] ==> MayFollow(e, elems[0])
    ensures Separate(e, Printed(elems))
  {
    if elems != [] {
      assert elems[0] in elems;
      assert forall x :: x in elems[1..] ==> x in elems;
      ElemStart(elems[0], Printed(elems[1..]), dotted);
    }
  }

  // Every list in normal form is the reading of a text.
  lemma {:induction false} PrintedReadsBack(elems: seq<Elem>, dotted: bool, afterLiteral: bool)
    requires IsNormal(elems, dotted) && (forall e :: e in elems ==> SetsPaired(e))
    requires afterLiteral && elems != [] ==> !elems[0].LiteralString?
    ensures Tokens(Printed(elems), dotted, afterLiteral) == Ok(elems)
  {
    if elems != [] {
      var e, more := elems[0], elems[1..];
      assert e in elems && forall x :: x in more ==> x in elems;
      NormalTail(elems, dotted);
      PrintedReadsBack(more, dotted, e.LiteralString?);
      NextSeparate(e, more, dotted);
      ElemReadsBack(e, Printed(more), dotted, afterLiteral);
      ElemStart(e, Printed(more), dotted);
      assert [e] + more == elems;
    }
  }

  // ---------- ranges in brackets ----------

  lemma BracketStops(from: int, to: int, rest: Text)
    requires from >= -1 && to >= -1
    ensures LiteralAt(BracketText(from, to, rest)) == Parsed(['['], BracketText(from, to, rest))
  {
    var s := BracketText(from, to, rest);
    RangeReadsBack('[', from, to, ']', rest);
    LiteralOne(s, s);
  }

  lemma {:induction false} LiteralBeforeBracket(text: Text, b: Text)
    requires b != [] && b[0] == '[' && LiteralAt(b) == Parsed(['['], b)
    ensures LiteralAt(LiteralText(text, b)) == Parsed(text + ['['], b)
  {
    if text == [] {
      assert [] + ['['] == ['['];
    } else {
      LiteralBeforeBracket(text[1..], b);
      LiteralStart(text[1..], b);
      LiteralEscaped(text[0], LiteralText(text[1..], b));
      FirstOf(text, text[1..], ['[']);
    }
  }

  lemma FirstOf(text: Text, tail: Text, ending: Text)
    requires text != [] && tail == text[1..]
    ensures [text[0]] + (tail + ending) == text + ending
  {
  }

  lemma BracketElem(from: int, to: int, rest: Text, dotted: bool)
    requires from >= -1 && to >= -1
    ensures ElemAt(BracketText(from, to, rest), dotted, true) == Parsed(NumRange(from, to), [']'] + rest)
  {
    RangeReadsBack('[', from, to, ']', rest);
  }

  lemma TokensOne(s: Text, dotted: bool, afterLiteral: bool, e: Elem, rest: Text)
    requires s != [] && ElemAt(s, dotted, afterLiteral) == Parsed(e, rest)
    ensures Tokens(s, dotted, afterLiteral) == Then([e], Tokens(rest, dotted, e.LiteralString?))
  {
  }

  lemma LiteralElemBeforeBracket(text: Text, b: Text, dotted: bool)
    requires b != [] && b[0] == '[' && LiteralAt(b) == Parsed(['['], b)
    ensures LiteralText(text, b) != []
    ensures ElemAt(LiteralText(text, b), dotted, false) == Parsed(LiteralString(text + ['[']), b)
  {
    LiteralBeforeBracket(text, b);
    LiteralStart(text, b);
  }

  // A range in brackets after a literal, which takes the opening bracket: the closing one starts the next literal.
  lemma BracketRangeReadsBack(text: Text, from: int, to: int, rest: Text, dotted: bool)
    requires from >= -1 && to >= -1
    ensures Tokens(LiteralText(text, BracketText(from, to, rest)), dotted, false)
         == Then([LiteralString(text + ['[']), NumRange(from, to)], Tokens([']'] + rest, dotted, false))
  {
    var b, e, range := BracketText(from, to, rest), LiteralString(text + ['[']), NumRange(from, to);
    BracketStops(from, to, rest);
    LiteralElemBeforeBracket(text, b, dotted);
    TokensOne(LiteralText(text, b), dotted, false, e, b);
    BracketElem(from, to, rest, dotted);
    TokensOne(b, dotted, true, range, [']'] + rest);
    ThenMore([e], range, Tokens([']'] + rest, dotted, false));
    assert [e] + [range] == [e, range];
  }

  ghost predicate IsNumberIn(digits: Text, from: int, to: int) {
    && digits != [] && (forall c :: c in digits ==> IsDigit(c))
    && (from >= 0 ==> from <= Number(digits)) && (to >= 0 ==> Number(digits) <= to)
  }

  ghost predicate IsAround(line: Text, before: Text, digits: Text, behind: Text) {
    line == before + (digits + behind)
  }

  lemma RangeBetweenLiterals(before: Text, from: int, to: int, behind: Text, line: Text)
    requires behind != [] && !IsDigit(behind[0])
    ensures IsMatch([LiteralString(before), NumRange(from, to), LiteralString(behind)], line)
       <==> exists digits :: IsAround(line, before, digits, behind) && IsNumberIn(digits, from, to)
  {
    var elems := [LiteralString(before), NumRange(from, to), LiteralString(behind)];
    if pieces :| Splits(elems, pieces, line) {
      ThreePieces(pieces[0], pieces[1], pieces[2]);
      assert pieces == [pieces[0], pieces[1], pieces[2]];
      assert IsAround(line, before, pieces[1], behind) && IsNumberIn(pieces[1], from, to);
    }
    if digits :| IsAround(line, before, digits, behind) && IsNumberIn(digits, from, to) {
      ThreePieces(before, digits, behind);
      assert Splits(elems, [before, digits, behind], line);
    }
  }

  lemma ThreePieces(a: Text, b: Text, c: Text)
    ensures var pieces := [a, b, c];
      && Joined(pieces) == a + (b + c) && Joined(pieces[1..]) == b + c
      && Joined(pieces[2..]) == c && Joined(pieces[3..]) == []
  {
    assert Joined([c]) == c by {
      assert [c][1..] == [] && c + [] == c;
    }
    assert Joined([b, c]) == b + c by {
      assert [b, c][1..] == [c];
    }
    assert [a, b, c][1..] == [b, c] && [a, b, c][2..] == [c] && [a, b, c][3..] == [];
  }

  // So the pattern matches the text with a number of the range in brackets behind it, and nothing else.
  lemma BracketRangeMatches(text: Text, from: int, to: int, dotted: bool, line: Text)
    requires from >= -1 && to >= -1
    ensures var compiled := Compiled(LiteralText(text, BracketText(from, to, [])), dotted, true);
      && compiled.Ok?
      && (IsMatch(compiled.value, line) <==>
          exists digits :: IsAround(line, text + ['['], digits, [']']) && IsNumberIn(digits, from, to))
  {
    BracketRangeReadsBack(text, from, to, [], dotted);
    PlainIsLiteral([']']);
    ThenOne([']'] + [], dotted);
    var elems := [LiteralString(text + ['[']), NumRange(from, to), LiteralString([']'])];
    assert [LiteralString(text + ['[']), NumRange(from, to)] + [LiteralString([']'])] == elems;
    WithoutEnd(elems, line);
    RangeBetweenLiterals(text + ['['], from, to, [']'], line);
  }

  // ---------- every reading is in normal form ----------

  lemma {:induction false} SetIsSet(s: Text, first: bool)
    requires SetAt(s, first).Parsed?
    ensures !first ==> '}' !in SetAt(s, first).found
    ensures first ==> IsSet(SetAt(s, first).found) && SetAt(s, first).found[0] == s[0]
    decreases |s|
  {
    if !(s[0] == '}' && !first) {
      var isRange := |s| >= 3 && s[1] == '-' && s[2] != '}';
      var t := if isRange then s[3..] else s[1..];
      SetIsSet(t, false);
      var more := SetAt(t, false).found;
      var found := SetAt(s, first).found;
      assert found == [s[0], if isRange then s[2] else s[0]] + more;
      assert found[2..] == more;
      if first && !isRange && s[0] == '}' && more != [] && more[0] == '-' {
        SetAfterDash(t);
        assert s[1] == '-' && s[2] == '}';
        SetEnds(s[3..]);
        assert t[1..] == ['}'] + s[3..];
        assert more == "--";
      }
    }
  }

  lemma SetAfterDash(t: Text)
    requires SetAt(t, false).Parsed? && SetAt(t, false).found != []
    ensures |t| >= 2 && t[0] == SetAt(t, false).found[0]
  {
  }

  // Where a literal stops.
  predicate IsStop(s: Text) {
    s == [] || IsSpecial(s[0]) || (s[0] == '[' && NumRangeAt(s, ']').Some?)
  }

  lemma {:induction false} LiteralStops(s: Text)
    requires LiteralAt(s).Parsed?
    ensures IsStop(LiteralAt(s).rest)
    ensures s != [] && !IsSpecial(s[0]) ==> LiteralAt(s).found != []
    decreases |s|
  {
    if s != [] && !IsSpecial(s[0]) {
      var t := if s[0] == '\\' then s[1..] else s;
      LiteralOne(s, t);
      if !(t[0] == '[' && NumRangeAt(t, ']').Some?) {
        LiteralStops(t[1..]);
      }
    }
  }

  lemma NumbersWritable(s: Text, closing: char)
    requires s != [] && NumRangeAt(s, closing).Some?
    ensures NumRangeAt(s, closing).value.lo >= -1 && NumRangeAt(s, closing).value.up >= -1
  {
  }

  lemma ReadIsWritable(s: Text, dotted: bool, afterLiteral: bool)
    requires s != [] && ElemAt(s, dotted, afterLiteral).Parsed? && (afterLiteral ==> IsStop(s))
    ensures var r := ElemAt(s, dotted, afterLiteral);
      && IsWritable(r.found, dotted) && (r.found.LiteralString? ==> IsStop(r.rest) && !afterLiteral)
      && ((r.found.AnySeq? || r.found.CommonSeq?) ==> s[0] == '*')
      && (r.found.CommonSeq? && r.rest != [] ==> r.rest[0] != '*')
  {
    if s[0] == '[' && afterLiteral {
      NumbersWritable(s, ']');
    } else if s[0] == '{' {
      if NumRangeAt(s, '}').Some? {
        NumbersWritable(s, '}');
      } else {
        var t := s[1..];
        var negated := t != [] && t[0] == '^';
        SetIsSet(if negated then t[1..] else t, true);
      }
    } else if !IsSpecial(s[0]) {
      LiteralStops(s);
    }
  }

  lemma {:induction false} TokensAreNormal(s: Text, dotted: bool, afterLiteral: bool)
    requires Tokens(s, dotted, afterLiteral).Ok? && (afterLiteral ==> IsStop(s))
    ensures var elems := Tokens(s, dotted, afterLiteral).value;
      && IsNormal(elems, dotted) && (elems == [] <==> s == [])
      && (elems != [] ==> elems[0] == ElemAt(s, dotted, afterLiteral).found)
    decreases |s|, if afterLiteral then 0 else 1
  {
    if s != [] {
      ReadIsWritable(s, dotted, afterLiteral);
      var r := ElemAt(s, dotted, afterLiteral);
      TokensAreNormal(r.rest, dotted, r.found.LiteralString?);
      var more := Tokens(r.rest, dotted, r.found.LiteralString?).value;
      if more != [] {
        ReadIsWritable(r.rest, dotted, r.found.LiteralString?);
      }
      NormalCons(r.found, more, dotted);
    }
  }

  lemma NormalIsPaired(elems: seq<Elem>, dotted: bool)
    requires IsNormal(elems, dotted)
    ensures forall e :: e in elems ==> SetsPaired(e)
  {
    forall e | e in elems
      ensures SetsPaired(e)
    {
      assert IsWritable(e, dotted);
    }
  }

  // The lists of elements that pattern texts read as are exactly those in normal form.
  lemma TextsReadAsNormalForms(elems: seq<Elem>, dotted: bool)
    ensures (exists s :: Tokens(s, dotted, false) == Ok(elems)) <==> IsNormal(elems, dotted)
  {
    if s :| Tokens(s, dotted, false) == Ok(elems) {
      TokensAreNormal(s, dotted, false);
    }
    if IsNormal(elems, dotted) {
      NormalIsPaired(elems, dotted);
      PrintedReadsBack(elems, dotted, false);
    }
  }

  // So a pattern can be written for every list in normal form, and it matches what the elements match.
  lemma PrintedMatches(elems: seq<Elem>, dotted: bool, line: Text)
    requires IsNormal(elems, dotted) && (forall e :: e in elems ==> SetsPaired(e))
    ensures var compiled := Compiled(Printed(elems), dotted, true);
      compiled.Ok? && (IsMatch(compiled.value, line) <==> IsMatch(elems, line))
  {
    PrintedReadsBack(elems, dotted, false);
    WithoutEnd(elems, line);
  }
}
