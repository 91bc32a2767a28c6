/** The quoting printer of sds.c and the argument lexer that undoes it. */
module Quoting {
  import opened Bytes
  import opened Sds

  const BELL: Byte := 7
  const BACKSPACE: Byte := 8
  const QUOTE: Byte := 34
  const APOSTROPHE: Byte := 39
  const BACKSLASH: Byte := 92
  const LETTER_A: Byte := 97
  const LETTER_B: Byte := 98
  const LETTER_N: Byte := 110
  const LETTER_R: Byte := 114
  const LETTER_T: Byte := 116
  const LETTER_X: Byte := 120

  predicate IsPrint(b: Byte) { 32 <= b <= 126 }

  predicate IsHexDigit(b: Byte) { 48 <= b <= 57 || 97 <= b <= 102 || 65 <= b <= 70 }

  function HexDigitToInt(b: Byte): (v: Byte)
    ensures v < 16
  {
    if 48 <= b <= 57 then b - 48
    else if 97 <= b <= 102 then b - 87
    else if 65 <= b <= 70 then b - 55
    else 0
  }

  /** A lower-case hexadecimal digit, as %02x prints it. */
  function HexDigit(v: Byte): (b: Byte)
    requires v < 16
    ensures IsHexDigit(b) && HexDigitToInt(b) == v
  {
    if v < 10 then 48 + v else 87 + v
  }

  // ---- printing ----

  function ReprByte(b: Byte): (r: Bytes)
    ensures 0 < |r| <= 4
  {
    if b == BACKSLASH || b == QUOTE then [BACKSLASH, b]
    else if b == LF then [BACKSLASH, LETTER_N]
    else if b == CR then [BACKSLASH, LETTER_R]
    else if b == TAB then [BACKSLASH, LETTER_T]
    else if b == BELL then [BACKSLASH, LETTER_A]
    else if b == BACKSPACE then [BACKSLASH, LETTER_B]
    else if IsPrint(b) then [b]
    else [BACKSLASH, LETTER_X, HexDigit(b / 16), HexDigit(b % 16)]
  }

  function ReprBody(s: Bytes): Bytes {
    if s == [] then [] else ReprByte(s[0]) + ReprBody(s[1..])
  }

  function Repr(s: Bytes): Bytes { [QUOTE] + ReprBody(s) + [QUOTE] }

  /** sdscatrepr. */
  method CatRepr(s: SdsString, p: Bytes) returns (r: SdsString)
    ensures r.bytes == s.bytes + Repr(p)
  {
    r := CatLen(s, [QUOTE]);
    var i := 0;
    while i < |p|
      invariant i <= |p| && r.bytes + ReprBody(p[i..]) == s.bytes + [QUOTE] + ReprBody(p)
    {
      assert p[i..][1..] == p[i + 1..];
      assert r.bytes + (ReprByte(p[i]) + ReprBody(p[i + 1..])) == r.bytes + ReprByte(p[i]) + ReprBody(p[i + 1..]);
      r := CatLen(r, ReprByte(p[i]));
      i := i + 1;
    }
    assert p[i..] == [] && r.bytes + [] == r.bytes;
    r := CatLen(r, [QUOTE]);
    assert r.bytes == s.bytes + ([QUOTE] + ReprBody(p) + [QUOTE]);
  }

  // ---- lexing ----

  datatype Mode = Plain | InQuotes | InSingleQuotes

  /** The byte at the cursor: NUL at and after the end of the line. */
  function Head(s: Bytes): Byte { if s == [] then NUL else s[0] }

  function Drop(s: Bytes, k: nat): Bytes { if k <= |s| then s[k..] else [] }

  predicate EndsQuoted(s: Bytes) { Head(s) == NUL || IsSpace(Head(s)) }

  predicate IsHexEscape(s: Bytes) {
    |s| >= 4 && s[0] == BACKSLASH && s[1] == LETTER_X && IsHexDigit(s[2]) && IsHexDigit(s[3])
  }

  predicate IsEscape(s: Bytes) { |s| >= 2 && s[0] == BACKSLASH && s[1] != NUL }

  function Unescape(b: Byte): Byte {
    if b == LETTER_N then LF
    else if b == LETTER_R then CR
    else if b == LETTER_T then TAB
    else if b == LETTER_B then BACKSPACE
    else if b == LETTER_A then BELL
    else b
  }

  datatype Token = Bad | Token(text: Bytes, rest: Bytes)

  /** The rest of a token, read in a mode, after `current`. */
  function Lex(s: Bytes, mode: Mode, current: Bytes): (t: Token)
    ensures t.Token? ==> |t.rest| <= |s|
    ensures t.Token? && Head(s) != NUL ==> |t.rest| < |s|
    decreases |s|
  {
    match mode
    case InQuotes =>
      if IsHexEscape(s) then Lex(s[4..], mode, current + [HexDigitToInt(s[2]) * 16 + HexDigitToInt(s[3])])
      else if IsEscape(s) then Lex(s[2..], mode, current + [Unescape(s[1])])
      else if Head(s) == QUOTE then if EndsQuoted(s[1..]) then Token(current, s[1..]) else Bad
      else if Head(s) == NUL then Bad
      else Lex(s[1..], mode, current + [s[0]])
    case InSingleQuotes =>
      if |s| >= 2 && s[0] == BACKSLASH && s[1] == APOSTROPHE then Lex(s[2..], mode, current + [APOSTROPHE])
      else if Head(s) == APOSTROPHE then if EndsQuoted(s[1..]) then Token(current, s[1..]) else Bad
      else if Head(s) == NUL then Bad
      else Lex(s[1..], mode, current + [s[0]])
    case Plain =>
      if Head(s) == NUL then Token(current, s)
      else if s[0] in {SPACE, LF, CR, TAB} then Token(current, s[1..])
      else if s[0] == QUOTE then Lex(s[1..], InQuotes, current)
      else if s[0] == APOSTROPHE then Lex(s[1..], InSingleQuotes, current)
      else Lex(s[1..], mode, current + [s[0]])
  }

  function SkipBlanks(s: Bytes): (r: Bytes)
    ensures |r| <= |s|
  {
    if s != [] && IsSpace(s[0]) then SkipBlanks(s[1..]) else s
  }

  /** The arguments of a line, or None for unbalanced quotes. */
  function LexAll(s: Bytes): Option<seq<Bytes>>
    decreases |s|
  {
    var t := SkipBlanks(s);
    if Head(t) == NUL then Some([]) else
    match Lex(t, Plain, [])
    case Bad => None
    case Token(text, rest) =>
      match LexAll(rest)
      case None => None
      case Some(more) => Some([text] + more)
  }

  /** sdssplitargs. */
  method SplitArgs(line: Bytes) returns (r: Option<seq<Bytes>>)
    ensures r == LexAll(line)
  {
    var p := 0;
    var vector: seq<Bytes> := [];
    assert line[0..] == line;
    assert LexAll(line).Some? ==> vector + LexAll(line).value == LexAll(line).value;
    while true
      invariant p <= |line|
      invariant LexAll(line) == match LexAll(line[p..]) case None => None case Some(more) => Some(vector + more)
      decreases |line| - p
    {
      ghost var before := p;
      while p < |line| && IsSpace(line[p])
        invariant before <= p <= |line| && SkipBlanks(line[p..]) == SkipBlanks(line[before..])
      {
        assert line[p..][1..] == line[p + 1..];
        p := p + 1;
      }
      if p == |line| || line[p] == NUL {
        assert vector + [] == vector;
        return Some(vector);
      }
      var ok, current, p' := GetToken(line, p);
      if !ok { return None; }
      ghost var rest := LexAll(line[p'..]);
      assert rest.Some? ==> vector + ([current] + rest.value) == vector + [current] + rest.value;
      vector := vector + [current];
      p := p';
    }
  }

  // One step of the lexer at a cursor into the line.

  predicate HexEscapeAt(line: Bytes, p: nat) {
    && p + 3 < |line| && line[p] == BACKSLASH && line[p + 1] == LETTER_X
    && IsHexDigit(line[p + 2]) && IsHexDigit(line[p + 3])
  }

  predicate ClosesAt(line: Bytes, p: nat) {
    !(p + 1 < |line| && line[p + 1] != NUL && !IsSpace(line[p + 1]))
  }

  predicate AtEnd(line: Bytes, p: nat) { p >= |line| || line[p] == NUL }

  lemma QuotedStep(line: Bytes, p: nat, current: Bytes)
    requires p <= |line|
    ensures var r := Lex(line[p..], InQuotes, current);
      if HexEscapeAt(line, p) then
        r == Lex(line[p + 4..], InQuotes, current + [HexDigitToInt(line[p + 2]) * 16 + HexDigitToInt(line[p + 3])])
      else if p + 1 < |line| && line[p] == BACKSLASH && line[p + 1] != NUL then
        r == Lex(line[p + 2..], InQuotes, current + [Unescape(line[p + 1])])
      else if p < |line| && line[p] == QUOTE then r == if ClosesAt(line, p) then Token(current, line[p + 1..]) else Bad
      else if AtEnd(line, p) then r == Bad
      else r == Lex(line[p + 1..], InQuotes, current + [line[p]])
  {
    var s := line[p..];
    assert forall k :: 0 <= k <= |s| ==> s[k..] == line[p + k..];
  }

  lemma SingleQuotedStep(line: Bytes, p: nat, current: Bytes)
    requires p <= |line|
    ensures var r := Lex(line[p..], InSingleQuotes, current);
      if p + 1 < |line| && line[p] == BACKSLASH && line[p + 1] == APOSTROPHE then
        r == Lex(line[p + 2..], InSingleQuotes, current + [APOSTROPHE])
      else if p < |line| && line[p] == APOSTROPHE then r == if ClosesAt(line, p) then Token(current, line[p + 1..]) else Bad
      else if AtEnd(line, p) then r == Bad
      else r == Lex(line[p + 1..], InSingleQuotes, current + [line[p]])
  {
    var s := line[p..];
    assert forall k :: 0 <= k <= |s| ==> s[k..] == line[p + k..];
  }

  lemma PlainStep(line: Bytes, p: nat, current: Bytes)
    requires p <= |line|
    ensures var r := Lex(line[p..], Plain, current);
      if AtEnd(line, p) then r == Token(current, line[p..])
      else if line[p] in {SPACE, LF, CR, TAB} then r == Token(current, line[p + 1..])
      else if line[p] == QUOTE then r == Lex(line[p + 1..], InQuotes, current)
      else if line[p] == APOSTROPHE then r == Lex(line[p + 1..], InSingleQuotes, current)
      else r == Lex(line[p + 1..], Plain, current + [line[p]])
  {
    var s := line[p..];
    assert p < |line| ==> s[1..] == line[p + 1..];
  }

  /** The token loop of sdssplitargs. */
  method GetToken(line: Bytes, start: nat) returns (ok: bool, current: Bytes, p: nat)
    requires start < |line|
    ensures p <= |line|
    ensures Lex(line[start..], Plain, []) == if ok then Token(current, line[p..]) else Bad
  {
    hide Lex, HexDigitToInt, Unescape;
    p, current, ok := start, [], true;
    var inq, insq, done := false, false, false;
    while !done
      invariant p <= |line| && !(inq && insq)
      invariant var mode := if inq then InQuotes else if insq then InSingleQuotes else Plain;
        Lex(line[start..], Plain, []) == if done then Token(current, line[p..]) else Lex(line[p..], mode, current)
      decreases !done, |line| - p
    {
      if inq {
        QuotedStep(line, p, current);
        if HexEscapeAt(line, p) {
          current := current + [HexDigitToInt(line[p + 2]) * 16 + HexDigitToInt(line[p + 3])];
          p := p + 3;
        } else if p + 1 < |line| && line[p] == BACKSLASH && line[p + 1] != NUL {
          p := p + 1;
          current := current + [Unescape(line[p])];
        } else if p < |line| && line[p] == QUOTE {
          // Refused where `ClosesAt` says that the quote closes in the middle of a word.
          if !ClosesAt(line, p) { return false, current, p; }
          done := true;
        } else if AtEnd(line, p) {
          return false, current, p;
        } else {
          current := current + [line[p]];
        }
      } else if insq {
        SingleQuotedStep(line, p, current);
        if p + 1 < |line| && line[p] == BACKSLASH && line[p + 1] == APOSTROPHE {
          p := p + 1;
          current := current + [APOSTROPHE];
        } else if p < |line| && line[p] == APOSTROPHE {
          if !ClosesAt(line, p) { return false, current, p; }
          done := true;
        } else if AtEnd(line, p) {
          return false, current, p;
        } else {
          current := current + [line[p]];
        }
      } else {
        PlainStep(line, p, current);
        if AtEnd(line, p) || line[p] in {SPACE, LF, CR, TAB} {
          done := true;
        } else if line[p] == QUOTE {
          inq := true;
        } else if line[p] == APOSTROPHE {
          insq := true;
        } else {
          current := current + [line[p]];
        }
      }
      if !AtEnd(line, p) { p := p + 1; }
    }
  }

  // ---- quoting and lexing undo each other ----

  function Reprs(args: seq<Bytes>): seq<Bytes> {
    if args == [] then [] else [Repr(args[0])] + Reprs(args[1..])
  }

  /** A printed byte is read back, whatever follows it. */
  lemma LexReprByte(b: Byte, rest: Bytes, current: Bytes)
    ensures Lex(ReprByte(b) + rest, InQuotes, current) == Lex(rest, InQuotes, current + [b])
  {
    var s := ReprByte(b) + rest;
    assert s[|ReprByte(b)|..] == rest;
    assert b / 16 * 16 + b % 16 == b;
  }

  lemma {:induction false} LexReprBody(s: Bytes, rest: Bytes, current: Bytes)
    requires EndsQuoted(rest)
    ensures Lex(ReprBody(s) + [QUOTE] + rest, InQuotes, current) == Token(current + s, rest)
    decreases |s|
  {
    if s == [] {
      var t := ReprBody(s) + [QUOTE] + rest;
      assert t[0] == QUOTE && t[1..] == rest;
      assert current + [] == current;
    } else {
      var more := ReprBody(s[1..]) + [QUOTE] + rest;
      assert ReprBody(s) + [QUOTE] + rest == ReprByte(s[0]) + more;
      LexReprByte(s[0], more, current);
      LexReprBody(s[1..], rest, current + [s[0]]);
      assert current + [s[0]] + s[1..] == current + s;
    }
  }

  lemma LexRepr(s: Bytes, rest: Bytes)
    requires EndsQuoted(rest)
    ensures Lex(Repr(s) + rest, Plain, []) == Token(s, rest)
  {
    assert (Repr(s) + rest)[1..] == ReprBody(s) + [QUOTE] + rest;
    LexReprBody(s, rest, []);
    assert [] + s == s;
  }

  /** Any byte strings, quoted and joined by single spaces, are split into themselves. */
  lemma {:induction false} QuoteThenSplit(args: seq<Bytes>)
    ensures LexAll(Join(Reprs(args), [SPACE])) == Some(args)
  {
    if args != [] {
      var arg, others := args[0], args[1..];
      QuoteThenSplit(others);
      var tail := if others == [] then [] else [SPACE] + Join(Reprs(others), [SPACE]);
      assert Reprs(args)[1..] == Reprs(others);
      assert Join(Reprs(args), [SPACE]) == Repr(arg) + tail by {
        if others == [] { assert Repr(arg) + [] == Repr(arg); }
      }
      LexRepr(arg, tail);
      BlankFirst(tail, others);
      assert [arg] + others == args;
    }
  }

  lemma BlankFirst(tail: Bytes, others: seq<Bytes>)
    requires tail == if others == [] then [] else [SPACE] + Join(Reprs(others), [SPACE])
    ensures LexAll(tail) == LexAll(Join(Reprs(others), [SPACE]))
  {
    if others != [] { assert tail[1..] == Join(Reprs(others), [SPACE]); }
  }
}
