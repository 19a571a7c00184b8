/** The glob matcher: setting a pattern and matching lines against it, in case-sensitive mode. */
module PatternMatchers {
  import opened Patterns
  import opened Wrappers

  // ---------- reading a pattern ----------

  // The number of digits at the start of s.
  function DigitCount(s: Text): (n: nat)
    ensures n <= |s| && (forall i :: 0 <= i < n ==> IsDigit(s[i])) && (n < |s| ==> !IsDigit(s[n]))
  {
    if s == [] || !IsDigit(s[0]) then 0 else 1 + DigitCount(s[1..])
  }

  // The number at the start of s, -1 if there is none.
  function LeadingNumber(s: Text): int {
    var n := DigitCount(s);
    if n == 0 then -1 else Number(s[..n])
  }

  datatype Range = Range(lo: int, up: int, rest: Text)

  // "[n..m]" or "{n..m}" at the start of s: the numbers, and what follows them from the closing character on.
  function NumRangeAt(s: Text, closing: char): (r: Option<Range>)
    requires s != []
    ensures r.Some? ==> |r.value.rest| < |s| && r.value.rest != []
  {
    var t := s[1..];
    var u := t[DigitCount(t)..];
    if |u| < 2 || u[0] != '.' || u[1] != '.' then None
    else
      var v := u[2..];
      var w := v[DigitCount(v)..];
      if w == [] || w[0] != closing then None else Some(Range(LeadingNumber(t), LeadingNumber(v), w))
  }

  // What a parsing step found and what is left to parse.
  datatype Parsed<T> = Parsed(found: T, rest: Text) | Unmatched | Overrun

  // The result of parsing the rest, after what was found before.
  function After(found: Text, r: Parsed<Text>): Parsed<Text> {
    if r.Parsed? then Parsed(found + r.found, r.rest) else r
  }

  lemma AfterNothing(r: Parsed<Text>)
    ensures After([], r) == r
  {
    if r.Parsed? {
      assert [] + r.found == r.found;
    }
  }

  lemma AfterMore(found: Text, more: Text, r: Parsed<Text>)
    ensures After(found + more, r) == After(found, After(more, r))
  {
    if r.Parsed? {
      assert (found + more) + r.found == found + (more + r.found);
    }
  }

  predicate IsSpecial(c: char) {
    c == '?' || c == '{' || c == '*'
  }

  // A literal string: up to a special character, or up to and with a "[" that starts a range of numbers.
  function LiteralAt(s: Text): (r: Parsed<Text>)
    ensures !r.Unmatched? && (r.Parsed? ==> |r.rest| <= |s|)
    decreases |s|
  {
    if s == [] || IsSpecial(s[0]) then Parsed([], s)
    else if s == ['\\'] then Overrun
    else
      var t := if s[0] == '\\' then s[1..] else s;
      if t[0] == '[' && NumRangeAt(t, ']').Some? then Parsed([t[0]], t)
      else
        After([t[0]], LiteralAt(t[1..]))
  }

  lemma LiteralOne(s: Text, t: Text)
    requires s != [] && !IsSpecial(s[0]) && s != ['\\'] && t == if s[0] == '\\' then s[1..] else s
    ensures LiteralAt(s) ==
      if t[0] == '[' && NumRangeAt(t, ']').Some? then Parsed([t[0]], t) else After([t[0]], LiteralAt(t[1..]))
  {
  }

  // The characters of a set up to its closing brace, which cannot be the first character.
  function SetAt(s: Text, first: bool): (r: Parsed<Text>)
    ensures !r.Overrun? && (r.Parsed? ==> |r.rest| < |s| && |r.found| % 2 == 0)
    decreases |s|
  {
    if s == [] then Unmatched
    else if s[0] == '}' && !first then Parsed([], s[1..])
    else
      var isRange := |s| >= 3 && s[1] == '-' && s[2] != '}';
      if isRange then After([s[0], s[2]], SetAt(s[3..], false)) else After([s[0], s[0]], SetAt(s[1..], false))
  }

  // A set, negated or not, after its opening brace.
  function BracedAt(s: Text): (r: Parsed<Elem>)
    ensures !r.Overrun? && (r.Parsed? ==> !r.found.End? && SetsPaired(r.found) && |r.rest| < |s|)
  {
    var negated := s != [] && s[0] == '^';
    var chars := SetAt(if negated then s[1..] else s, true);
    if chars.Parsed? then Parsed(if negated then NegSet(chars.found) else CharSet(chars.found), chars.rest)
    else Unmatched
  }

  // The element at the start of s. A range of numbers in brackets is one only after a literal string, which
  // then ends in the bracket; so the string "[" in front of such a range is read without moving on.
  function ElemAt(s: Text, dotted: bool, afterLiteral: bool): (r: Parsed<Elem>)
    requires s != []
    ensures r.Parsed? ==> !r.found.End? && SetsPaired(r.found) && |r.rest| <= |s|
    ensures r.Parsed? && |r.rest| == |s| ==> !afterLiteral && r.found.LiteralString?
  {
    if s[0] == '?' then Parsed(if dotted then CommonChar else AnyChar, s[1..])
    else if s[0] == '[' && afterLiteral && NumRangeAt(s, ']').Some? then
      var range := NumRangeAt(s, ']').value;
      Parsed(NumRange(range.lo, range.up), range.rest)
    else if s[0] == '{' then
      if NumRangeAt(s, '}').Some? then
        var range := NumRangeAt(s, '}').value;
        Parsed(NumRange(range.lo, range.up), range.rest[1..])
      else BracedAt(s[1..])
    else if s[0] == '*' then
      if |s| > 1 && s[1] == '*' then Parsed(AnySeq, s[2..])
      else Parsed(if dotted then CommonSeq else AnySeq, s[1..])
    else
      var literal := LiteralAt(s);
      if literal.Parsed? then Parsed(LiteralString(literal.found), literal.rest)
      else Overrun
  }

  datatype Result<T> = Ok(value: T) | UnmatchedBrace | ReadsPastEnd

  function Then(elems: seq<Elem>, r: Result<seq<Elem>>): Result<seq<Elem>> {
    if r.Ok? then Ok(elems + r.value) else r
  }

  // The elements of a pattern text, without the end mark.
  function Tokens(s: Text, dotted: bool, afterLiteral: bool): (r: Result<seq<Elem>>)
    ensures r.Ok? ==> End !in r.value
    decreases |s|, if afterLiteral then 0 else 1
  {
    if s == [] then Ok([])
    else
      match ElemAt(s, dotted, afterLiteral)
      case Unmatched => UnmatchedBrace
      case Overrun => ReadsPastEnd
      case Parsed(e, rest) =>
        Then([e], Tokens(rest, dotted, e.LiteralString?))
  }

  predicate LastIsLiteral(elems: seq<Elem>) {
    elems != [] && elems[|elems| - 1].LiteralString?
  }

  lemma ThenMore(elems: seq<Elem>, e: Elem, r: Result<seq<Elem>>)
    ensures Then(elems + [e], r) == Then(elems, Then([e], r))
  {
    if r.Ok? {
      assert (elems + [e]) + r.value == elems + ([e] + r.value);
    }
  }

  lemma ThenNothing(r: Result<seq<Elem>>)
    ensures Then([], r) == r
  {
    if r.Ok? {
      assert [] + r.value == r.value;
    }
  }

  // For a match anywhere in the line, any characters may come before and after.
  function Widened(elems: seq<Elem>): seq<Elem> {
    var wide := if elems == [] || elems[|elems| - 1] != AnySeq then elems + [AnySeq] else elems;
    if wide[0] != AnySeq then [AnySeq] + wide else wide
  }

  function Compiled(text: Text, dotted: bool, fullString: bool): Result<seq<Elem>> {
    var tokens := Tokens(text, dotted, false);
    if tokens.Ok? then Ok((if fullString then tokens.value else Widened(tokens.value)) + [End]) else tokens
  }

  predicate SetsPaired(e: Elem) {
    e.CharSet? || e.NegSet? ==> |e.chars| % 2 == 0
  }

  ghost predicate AllPlain(elems: seq<Elem>) {
    forall e :: e in elems ==> SetsPaired(e) && !e.End?
  }

  class PatternMatcher {
    var pattern: seq<Elem>

    // One end mark, at the end.
    ghost predicate Valid()
      reads this
    {
      && pattern != [] && pattern[|pattern| - 1] == End && End !in pattern[..|pattern| - 1]
      && forall e :: e in pattern ==> SetsPaired(e)
    }

    // ---------- reading the pattern text ----------

    static method SkipDigits(s: Text) returns (n: nat)
      ensures n == DigitCount(s)
    {
      n := 0;
      while n < |s| && IsDigit(s[n])
        invariant n <= |s| && DigitCount(s) == n + DigitCount(s[n..])
      {
        assert s[n..][1..] == s[n + 1..];
        n := n + 1;
      }
    }

    static method ParseNumRange(str: Text, closing: char) returns (r: Option<Range>)
      requires str != []
      ensures r == NumRangeAt(str, closing)
    {
      var s := str[1..];
      var n := SkipDigits(s);
      var lo := if n == 0 then -1 else Number(s[..n]);
      s := s[n..];
      if |s| < 2 || s[0] != '.' || s[1] != '.' {
        return None;
      }
      s := s[2..];
      n := SkipDigits(s);
      var up := if n == 0 then -1 else Number(s[..n]);
      s := s[n..];
      if s == [] || s[0] != closing {
        return None;
      }
      r := Some(Range(lo, up, s));
    }

    static method ParseLiteralString(str: Text) returns (r: Parsed<Text>)
      ensures r == LiteralAt(str)
    {
      var s := str;
      var text: Text := [];
      AfterNothing(LiteralAt(s));
      while s != [] && !IsSpecial(s[0])
        invariant LiteralAt(str) == After(text, LiteralAt(s))
        decreases |s|
      {
        if s == ['\\'] {
          return Overrun;
        }
        ghost var from := s;
        if s[0] == '\\' {
          s := s[1..];
        }
        LiteralOne(from, s);
        AfterMore(text, [s[0]], LiteralAt(s[1..]));
        text := text + [s[0]];
        if s[0] == '[' {
          var range := ParseNumRange(s, ']');
          if range.Some? {
            break;
          }
        }
        s := s[1..];
      }
      assert text + [] == text;
      r := Parsed(text, s);
    }

    static method ParseSet(str: Text) returns (r: Parsed<Elem>)
      requires str != []
      ensures r == BracedAt(str[1..])
    {
      var s := str[1..];
      var negated := false;
      if s != [] && s[0] == '^' {
        negated := true;
        s := s[1..];
      }
      ghost var begin := s;
      var chars: Text := [];
      AfterNothing(SetAt(s, true));
      while s != [] && (s[0] != '}' || chars == [])
        invariant SetAt(begin, true) == After(chars, SetAt(s, chars == []))
        decreases |s|
      {
        if |s| >= 3 && s[1] == '-' && s[2] != '}' {
          AfterMore(chars, [s[0], s[2]], SetAt(s[3..], false));
          chars := chars + [s[0], s[2]];
          s := s[3..];
        } else {
          AfterMore(chars, [s[0], s[0]], SetAt(s[1..], false));
          chars := chars + [s[0], s[0]];
          s := s[1..];
        }
      }
      if s == [] {
        return Unmatched;
      }
      assert chars + [] == chars;
      r := Parsed(if negated then NegSet(chars) else CharSet(chars), s[1..]);
    }

    // The next element of the pattern text.
    method ParseElem(s: Text, dotted: bool) returns (r: Parsed<Elem>)
      requires s != []
      ensures r == ElemAt(s, dotted, LastIsLiteral(pattern))
    {
      match s[0] {
        case '?' =>
          return Parsed(if dotted then CommonChar else AnyChar, s[1..]);
        case '[' =>
          if pattern != [] && pattern[|pattern| - 1].LiteralString? {
            var range := ParseNumRange(s, ']');
            if range.Some? {
              return Parsed(NumRange(range.value.lo, range.value.up), range.value.rest);
            }
          }
        case '{' =>
          var range := ParseNumRange(s, '}');
          if range.Some? {
            return Parsed(NumRange(range.value.lo, range.value.up), range.value.rest[1..]);
          }
          r := ParseSet(s);
          return;
        case '*' =>
          if |s| > 1 && s[1] == '*' {
            return Parsed(AnySeq, s[2..]);
          }
          return Parsed(if dotted then CommonSeq else AnySeq, s[1..]);
        case _ =>
      }
      var literal := ParseLiteralString(s);
      r := if literal.Parsed? then Parsed(LiteralString(literal.found), literal.rest) else Overrun;
    }

    method Tokenize(text: Text, dotted: bool) returns (r: Result<seq<Elem>>)
      modifies this
      ensures r == Tokens(text, dotted, false)
      ensures r.Ok? ==> pattern == r.value && AllPlain(pattern)
    {
      pattern := [];
      var s := text;
      ThenNothing(Tokens(text, dotted, false));
      while s != []
        invariant Tokens(text, dotted, false) == Then(pattern, Tokens(s, dotted, LastIsLiteral(pattern)))
        invariant AllPlain(pattern)
        decreases |s|, if LastIsLiteral(pattern) then 0 else 1
      {
        var parsed := ParseElem(s, dotted);
        match parsed {
          case Unmatched => return UnmatchedBrace;
          case Overrun => return ReadsPastEnd;
          case Parsed(e, rest) =>
            ThenMore(pattern, e, Tokens(rest, dotted, e.LiteralString?));
            pattern := pattern + [e];
            s := rest;
        }
      }
      assert pattern + [] == pattern;
      r := Ok(pattern);
    }

    // For a substring match, "**" is added at both ends unless it is there.
    method Widen()
      requires AllPlain(pattern)
      modifies this
      ensures pattern == Widened(old(pattern)) && AllPlain(pattern)
    {
      if pattern == [] || pattern[|pattern| - 1] != AnySeq {
        pattern := pattern + [AnySeq];
      }
      if pattern[0] != AnySeq {
        pattern := [AnySeq] + pattern;
      }
    }

    method AppendEnd()
      requires AllPlain(pattern)
      modifies this
      ensures pattern == old(pattern) + [End] && Valid()
    {
      assert forall e :: e in pattern + [End] ==> e in pattern || e == End;
      assert (pattern + [End])[..|pattern|] == pattern;
      pattern := pattern + [End];
    }

    // Sets the pattern; a brace that is not closed is an error.
    method SetPattern(text: Text, dotted: bool, fullString: bool) returns (r: Result<seq<Elem>>)
      modifies this
      ensures r == Compiled(text, dotted, fullString)
      ensures r.Ok? ==> Valid() && pattern == r.value
    {
      r := Tokenize(text, dotted);
      if !r.Ok? {
        return;
      }
      if !fullString {
        Widen();
      }
      AppendEnd();
      r := Ok(pattern);
    }

    // ---------- matching ----------

    static method IsInSet(c: char, chars: Text) returns (b: bool)
      requires |chars| % 2 == 0
      ensures b <==> InSet(c, chars)
    {
      var i := 0;
      while i < |chars|
        invariant 0 <= i <= |chars| && i % 2 == 0
        invariant forall j :: 0 <= j < i / 2 ==> !(Code(chars[2 * j]) <= Code(c) <= Code(chars[2 * j + 1]))
      {
        if Code(c) >= Code(chars[i]) && Code(c) <= Code(chars[i + 1]) {
          assert i == 2 * (i / 2);
          return true;
        }
        i := i + 2;
      }
      b := false;
    }

    // Does some rest of the line match the elements after the k-th, a "*" or "**"?
    method SkipChars(line: Text, k: nat) returns (b: bool)
      requires Valid() && k < |pattern| && (pattern[k].AnySeq? || pattern[k].CommonSeq?)
      ensures b <==> Accepts(pattern[k..], line)
      decreases |pattern| - k, 0
    {
      ghost var elems := pattern[k..];
      assert elems[0] == pattern[k] && elems[1..] == pattern[k + 1..];
      var s := line;
      while true
        invariant Accepts(elems, s) <==> Accepts(elems, line)
        decreases |s|
      {
        SeqStep(elems, s);
        b := DoMatch(s, k + 1);
        if b {
          return;
        }
        if s == [] || (pattern[k].CommonSeq? && s[0] == '.') {
          return;
        }
        s := s[1..];
      }
    }

    // Does the rest of the pattern from the k-th element on match the line?
    method DoMatch(line: Text, k: nat) returns (b: bool)
      requires Valid() && k < |pattern|
      ensures b <==> Accepts(pattern[k..], line)
      decreases |pattern| - k
    {
      var s, i := line, k;
      while true
        invariant k <= i < |pattern|
        invariant Accepts(pattern[i..], s) <==> Accepts(pattern[k..], line)
        decreases |pattern| - i
      {
        ghost var elems := pattern[i..];
        assert elems[0] == pattern[i] && elems[1..] == pattern[i + 1..];
        assert pattern[i] in pattern && forall j :: 0 <= j < |pattern| - 1 ==> pattern[j] in pattern[..|pattern| - 1];
        match pattern[i] {
          case LiteralString(text) =>
            LiteralStep(elems, s, text);
            if !(|text| <= |s| && s[..|text|] == text) {
              return false;
            }
            s := s[|text|..];
          case AnyChar =>
            OneCharStep(elems, s);
            if s == [] {
              return false;
            }
            s := s[1..];
          case CommonChar =>
            OneCharStep(elems, s);
            if s == [] || s[0] == '.' {
              return false;
            }
            s := s[1..];
          case CharSet(chars) =>
            OneCharStep(elems, s);
            if s == [] {
              return false;
            }
            var inSet := IsInSet(s[0], chars);
            if !inSet {
              return false;
            }
            s := s[1..];
          case NegSet(chars) =>
            OneCharStep(elems, s);
            if s == [] {
              return false;
            }
            var inSet := IsInSet(s[0], chars);
            if inSet {
              return false;
            }
            s := s[1..];
          case NumRange(from, to) =>
            var n := SkipDigits(s);
            NumRangeStep(elems, s, n);
            if n == 0 {
              return false;
            }
            var num := Number(s[..n]);
            s := s[n..];
            if (from >= 0 && num < from) || (to >= 0 && num > to) {
              return false;
            }
          case AnySeq =>
            if i == |pattern| - 2 {
              assert elems == [AnySeq, End];
              LastAnySeq(s);
              return true;
            }
            if i == |pattern| - 3 && pattern[i + 1].LiteralString? {
              assert elems == [AnySeq, pattern[i + 1], End];
              LastAnySeqLiteral(pattern[i + 1].text, s);
              return EndsWith(s, pattern[i + 1].text);
            }
            b := SkipChars(s, i);
            return;
          case CommonSeq =>
            b := SkipChars(s, i);
            return;
          case End =>
            assert elems == [End];
            EndAccepts(s);
            return s == [];
        }
        i := i + 1;
      }
    }

    // Does the line match the pattern?
    method Matches(line: Text) returns (b: bool)
      requires Valid()
      ensures b <==> IsMatch(pattern[..|pattern| - 1], line)
    {
      ghost var elems := pattern[..|pattern| - 1];
      assert pattern == elems + [End];
      EndAddsNothing(elems, line);
      AcceptsIffSplits(elems, line);
      if |pattern| >= 2 {
        var e := pattern[|pattern| - 2];
        if e.LiteralString? {
          var pattLen, lineLen := |e.text|, |line|;
          if pattLen >= 2 && lineLen >= 2 &&
             (line[lineLen - 1] != e.text[pattLen - 1] || line[lineLen - 2] != e.text[pattLen - 2])
          {
            assert pattern == elems[..|elems| - 1] + [e, End];
            LastTwo(elems[..|elems| - 1], e.text, line);
            return false;
          }
        }
      }
      assert pattern[0..] == pattern;
      b := DoMatch(line, 0);
    }
  }

  // The end mark asks for the end of the line, which comes after the last piece anyway.
  lemma {:induction false} EndAddsNothing(elems: seq<Elem>, line: Text)
    ensures Accepts(elems + [End], line) <==> Accepts(elems, line)
    decreases |elems|
  {
    var all := elems + [End];
    if elems == [] {
      assert all == [End];
      EndAccepts(line);
    } else {
      assert all[1..] == elems[1..] + [End];
      forall n: nat
        ensures Cut(all, line, n) <==> Cut(elems, line, n)
      {
        if n <= |line| {
          EndAddsNothing(elems[1..], line[n..]);
        }
      }
    }
  }

  lemma WithoutEnd(elems: seq<Elem>, line: Text)
    ensures IsMatch(elems + [End], line) <==> IsMatch(elems, line)
  {
    EndAddsNothing(elems, line);
    AcceptsIffSplits(elems, line);
    AcceptsIffSplits(elems + [End], line);
  }

  // The check of the last two characters never turns away a line that matches.
  lemma LastTwo(elems: seq<Elem>, text: Text, line: Text)
    requires |text| >= 2 && |line| >= 2
    requires line[|line| - 1] != text[|text| - 1] || line[|line| - 2] != text[|text| - 2]
    ensures !Accepts(elems + [LiteralString(text), End], line)
  {
    if Accepts(elems + [LiteralString(text), End], line) {
      LiteralEndsLine(elems, text, line);
    }
    var n := |line| - |text|;
    assert n >= 0 ==> line[n..][|text| - 1] == line[|line| - 1] && line[n..][|text| - 2] == line[|line| - 2];
  }
}
