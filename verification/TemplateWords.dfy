/** Templates as their users write them (redisvFormatCommand): words, one space between them,
    and what each word is put together from. */
module TemplateWords {
  import opened Bytes
  import opened Template

  // ---------- Parts of a word ----------

  /** A part, with what is passed for it: a literal, %s with the memory of a C string, which
      goes on behind the terminator, %b, %%, or a number directive with what is printed. */
  datatype Part =
    | Text(literal: Bytes)
    | Str(text: Bytes, after: Bytes)
    | Bin(data: Bytes)
    | Percent
    | Num(flags: Bytes, width: Bytes, precision: Bytes, letters: Bytes, kind: NumberKind, printed: Bytes)

  /** d i o u x X */
  predicate IntLetter(b: Byte) { b == 100 || b == 105 || b == 111 || b == 117 || b == 120 || b == 88 }

  /** e E f F g G a A */
  predicate DoubleLetter(b: Byte) {
    b == 101 || b == 69 || b == 102 || b == 70 || b == 103 || b == 71 || b == 97 || b == 65
  }

  /** A conversion, perhaps with one of the modifiers h, hh, l and ll in front. */
  predicate LettersFor(s: Bytes, kind: NumberKind) {
    match kind
    case IntArg =>
      || (|s| == 1 && IntLetter(s[0]))
      || (|s| == 2 && s[0] == 104 && IntLetter(s[1]))
      || (|s| == 3 && s[..2] == [104, 104] && IntLetter(s[2]))
    case LongArg => |s| == 2 && s[0] == 108 && IntLetter(s[1])
    case LongLongArg => |s| == 3 && s[..2] == [108, 108] && IntLetter(s[2])
    case DoubleArg => |s| == 1 && DoubleLetter(s[0])
  }

  /** # 0 - + and space */
  predicate AllFlags(s: Bytes) { forall i :: 0 <= i < |s| ==> s[i] in {35, 48, 45, 43, 32} }

  predicate AllDigits(s: Bytes) { forall i :: 0 <= i < |s| ==> 48 <= s[i] <= 57 }

  function Directive(p: Part): Bytes
    requires p.Num?
  {
    p.flags + (p.width + (p.precision + p.letters))
  }

  predicate NumberOk(p: Part)
    requires p.Num?
  {
    && AllFlags(p.flags) && AllDigits(p.width) && (p.width != [] ==> p.width[0] != 48)
    && (p.precision == [] || (p.precision[0] == 46 && AllDigits(p.precision[1..])))
    && LettersFor(p.letters, p.kind) && NUL !in p.printed
  }

  predicate PartOk(p: Part) {
    match p
    case Text(t) => t != [] && forall i :: 0 <= i < |t| ==> t[i] != 37 && t[i] != 32 && t[i] != 0
    case Str(text, _) => NUL !in text
    case Num(_, _, _, _, _, _) => NumberOk(p) && 1 + |Directive(p)| < 14
    case _ => true
  }

  /** How it is written, what is passed, and what it stands for. */
  function Written(p: Part): Bytes {
    match p
    case Text(t) => t
    case Str(_, _) => [37, 115]
    case Bin(_) => [37, 98]
    case Percent => [37, 37]
    case Num(_, _, _, _, _, _) => [37] + Directive(p)
  }

  function Passed(p: Part): seq<VarArg> {
    match p
    case Text(_) => []
    case Str(text, after) => [CString(text + [NUL] + after)]
    case Bin(data) => [Binary(data)]
    case Percent => []
    case Num(_, _, _, _, kind, printed) => [Number(kind, printed)]
  }

  function Meant(p: Part): Bytes {
    match p
    case Text(t) => t
    case Str(text, _) => text
    case Bin(data) => data
    case Percent => [37]
    case Num(_, _, _, _, _, printed) => printed
  }

  // ---------- Number directives ----------

  lemma {:induction false} FlagsEnd(flags: Bytes, rest: Bytes)
    requires AllFlags(flags) && rest != [] && rest[0] !in {35, 48, 45, 43, 32}
    ensures FlagsIn(flags + rest) == |flags|
  {
    if flags == [] {
      assert flags + rest == rest;
    } else {
      FlagsEnd(flags[1..], rest);
      assert (flags + rest)[1..] == flags[1..] + rest;
    }
  }

  lemma {:induction false} DigitsEnd(digits: Bytes, rest: Bytes)
    requires AllDigits(digits) && rest != [] && !(48 <= rest[0] <= 57)
    ensures DigitsIn(digits + rest) == |digits|
  {
    if digits == [] {
      assert digits + rest == rest;
    } else {
      DigitsEnd(digits[1..], rest);
      assert (digits + rest)[1..] == digits[1..] + rest;
    }
  }

  lemma LettersRead(letters: Bytes, kind: NumberKind, rest: Bytes)
    requires LettersFor(letters, kind)
    ensures Letters(letters + rest) == Converts(|letters|, kind)
    ensures letters[0] !in {35, 48, 45, 43, 32, 46} && !(48 <= letters[0] <= 57)
  {}

  lemma PrefixEnds(flags: Bytes, width: Bytes, precision: Bytes, tail: Bytes)
    requires AllFlags(flags) && AllDigits(width) && (width != [] ==> width[0] != 48)
    requires precision == [] || (precision[0] == 46 && AllDigits(precision[1..]))
    requires tail != [] && tail[0] !in {35, 48, 45, 43, 32, 46} && !(48 <= tail[0] <= 57)
    ensures PrefixIn(flags + (width + (precision + tail))) == |flags| + |width| + |precision|
  {
    hide FlagsIn, DigitsIn, AllFlags, PrefixIn;
    var front := precision + tail;
    var middle := width + front;
    MiddleStarts(width, precision, tail);
    FlagsEnd(flags, middle);
    DigitsEnd(width, front);
    PrefixFrom(flags, width, front);
    if precision != [] {
      assert front[1..] == precision[1..] + tail;
      DigitsEnd(precision[1..], tail);
    }
  }

  lemma PrefixFrom(flags: Bytes, width: Bytes, front: Bytes)
    requires front != [] && FlagsIn(flags + (width + front)) == |flags| && DigitsIn(width + front) == |width|
    ensures PrefixIn(flags + (width + front))
      == |flags| + |width| + if front[0] == 46 then 1 + DigitsIn(front[1..]) else 0
  {
    hide FlagsIn, DigitsIn;
    var s, w := flags + (width + front), |flags| + |width|;
    assert s[|flags|..] == width + front;
    assert s[w] == front[0] && s[w + 1..] == front[1..];
  }

  lemma MiddleStarts(width: Bytes, precision: Bytes, tail: Bytes)
    requires AllDigits(width) && (width != [] ==> width[0] != 48)
    requires precision == [] || precision[0] == 46
    requires tail != [] && tail[0] !in {35, 48, 45, 43, 32, 46} && !(48 <= tail[0] <= 57)
    ensures var front := precision + tail;
      var middle := width + front;
      && front != [] && !(48 <= front[0] <= 57) && (front[0] == 46 <==> precision != [])
      && middle != [] && middle[0] !in {35, 48, 45, 43, 32}
  {}

  /** A number directive reads as itself, whatever follows it. */
  lemma NumberReads(p: Part, rest: Bytes)
    requires p.Num? && NumberOk(p)
    ensures ConversionIn(Directive(p) + rest) == Converts(|Directive(p)|, p.kind)
  {
    hide PrefixIn, Letters, LettersFor;
    var tail := p.letters + rest;
    LettersRead(p.letters, p.kind, rest);
    PrefixEnds(p.flags, p.width, p.precision, tail);
    var s := Directive(p) + rest;
    assert s == p.flags + (p.width + (p.precision + tail));
    assert s[|p.flags| + |p.width| + |p.precision|..] == tail;
  }

  // ---------- One part more in front ----------

  lemma StringFits(fmt: Bytes, args: seq<VarArg>)
    requires |fmt| >= 2 && fmt[0] == 37 && fmt[1] == 115 && args != [] && args[0].CString? && Fits(fmt[2..], args[1..])
    ensures Fits(fmt, args)
    ensures Pieces(fmt, args) == Behind(Chunk(UpToNul(args[0].memory)), Pieces(fmt[2..], args[1..]))
  {
    hide UpToNul, ConversionIn;
  }

  lemma PercentFits(fmt: Bytes, args: seq<VarArg>)
    requires |fmt| >= 2 && fmt[0] == 37 && fmt[1] == 37 && Fits(fmt[2..], args)
    ensures Fits(fmt, args) && Pieces(fmt, args) == Behind(Chunk([37]), Pieces(fmt[2..], args))
  {
    hide ConversionIn;
  }

  lemma NumberFits(fmt: Bytes, args: seq<VarArg>, size: nat)
    requires |fmt| > size > 0 && fmt[0] == 37 && fmt[1] !in {37, 98, 115} && 1 + size < 14
    requires args != [] && args[0].Number? && NUL !in args[0].text
    requires ConversionIn(fmt[1..]) == Converts(size, args[0].kind) && Fits(fmt[1 + size..], args[1..])
    ensures Fits(fmt, args) && Pieces(fmt, args) == Behind(Chunk(args[0].text), Pieces(fmt[1 + size..], args[1..]))
  {
    hide ConversionIn;
  }

  lemma TextFits(fmt: Bytes, args: seq<VarArg>)
    requires fmt != [] && fmt[0] != 37 && fmt[0] != 32 && fmt[0] != 0 && Fits(fmt[1..], args)
    ensures Fits(fmt, args) && Pieces(fmt, args) == Behind(Chunk([fmt[0]]), Pieces(fmt[1..], args))
  {}

  /** The parts in front of a template change what remains as their meaning says. */
  ghost predicate Leads(written: Bytes, passed: seq<VarArg>, meant: Bytes, fmt: Bytes, args: seq<VarArg>) {
    && Fits(fmt, args) && Fits(written + fmt, passed + args)
    && Pieces(fmt, args).Some? && Pieces(written + fmt, passed + args).Some?
    && forall touched: bool, current: Bytes :: (!touched ==> current == []) ==>
      Remaining(touched, current, Pieces(written + fmt, passed + args).value)
      == Remaining(true, current + meant, Pieces(fmt, args).value)
  }

  lemma OneChunk(written: Bytes, passed: seq<VarArg>, meant: Bytes, fmt: Bytes, args: seq<VarArg>)
    requires Fits(fmt, args) && Pieces(fmt, args).Some? && Fits(written + fmt, passed + args)
    requires Pieces(written + fmt, passed + args) == Behind(Chunk(meant), Pieces(fmt, args))
    ensures Leads(written, passed, meant, fmt, args)
  {
    hide Fits, Pieces, Remaining;
    var ps := Pieces(fmt, args).value;
    forall touched: bool, current: Bytes | !touched ==> current == []
      ensures Remaining(touched, current, [Chunk(meant)] + ps) == Remaining(true, current + meant, ps)
    {
      ChunkNext(touched, current, meant, ps);
    }
  }

  lemma {:induction false} TextLeads(t: Bytes, fmt: Bytes, args: seq<VarArg>)
    requires PartOk(Text(t)) && Fits(fmt, args) && Pieces(fmt, args).Some?
    ensures Leads(t, [], t, fmt, args)
  {
    hide Fits, Pieces, Remaining;
    var all, none: seq<VarArg> := t + fmt, [];
    var first, rest := [t[0]], t[1..];
    assert all[1..] == rest + fmt && none + args == args && first + (rest + fmt) == all && first + rest == t;
    if rest == [] {
      assert rest + fmt == fmt;
      TextFits(all, args);
      OneChunk(t, none, t, fmt, args);
    } else {
      TextLeads(rest, fmt, args);
      TextFits(all, args);
      OneChunk(first, none, first, rest + fmt, args);
      LeadsJoin(first, none, first, rest, none, rest, fmt, args);
      assert none + none == none;
    }
  }

  /** One after the other. */
  lemma LeadsJoin(w1: Bytes, p1: seq<VarArg>, m1: Bytes, w2: Bytes, p2: seq<VarArg>, m2: Bytes, fmt: Bytes, args: seq<VarArg>)
    requires Leads(w2, p2, m2, fmt, args) && Leads(w1, p1, m1, w2 + fmt, p2 + args)
    ensures Leads(w1 + w2, p1 + p2, m1 + m2, fmt, args)
  {
    hide Fits, Pieces, Remaining;
    assert w1 + w2 + fmt == w1 + (w2 + fmt) && p1 + p2 + args == p1 + (p2 + args);
    forall touched: bool, current: Bytes | !touched ==> current == []
      ensures Remaining(touched, current, Pieces(w1 + w2 + fmt, p1 + p2 + args).value)
        == Remaining(true, current + (m1 + m2), Pieces(fmt, args).value)
    {
      assert current + m1 + m2 == current + (m1 + m2);
      assert Remaining(true, current + m1, Pieces(w2 + fmt, p2 + args).value)
        == Remaining(true, current + m1 + m2, Pieces(fmt, args).value);
    }
  }

  lemma PartLeads(p: Part, fmt: Bytes, args: seq<VarArg>)
    requires PartOk(p) && Fits(fmt, args) && Pieces(fmt, args).Some?
    ensures Leads(Written(p), Passed(p), Meant(p), fmt, args)
  {
    hide Fits, Pieces, Leads, PartOk, ConversionIn, UpToNul;
    var all, given := Written(p) + fmt, Passed(p) + args;
    match p
    case Text(t) => TextLeads(t, fmt, args);
    case Str(text, after) =>
      assert all[2..] == fmt && given[1..] == args;
      StringFits(all, given);
      StrOk(p);
      Terminated(text, after);
      OneChunk(Written(p), Passed(p), Meant(p), fmt, args);
    case Bin(data) =>
      assert all[2..] == fmt && given[1..] == args;
      BinaryFits(all, given);
      OneChunk(Written(p), Passed(p), Meant(p), fmt, args);
    case Percent =>
      assert all[2..] == fmt && given == args;
      PercentFits(all, given);
      OneChunk(Written(p), Passed(p), Meant(p), fmt, args);
    case Num(_, _, _, _, _, _) => NumLeads(p, fmt, args);
  }

  lemma StrOk(p: Part)
    requires p.Str? && PartOk(p)
    ensures NUL !in p.text
  {}

  lemma NumLeads(p: Part, fmt: Bytes, args: seq<VarArg>)
    requires p.Num? && PartOk(p) && Fits(fmt, args) && Pieces(fmt, args).Some?
    ensures Leads(Written(p), Passed(p), Meant(p), fmt, args)
  {
    hide Fits, Pieces, Leads, ConversionIn, PartOk, NumberOk, Directive;
    var all, given, size := Written(p) + fmt, Passed(p) + args, |Directive(p)|;
    NumParts(p);
    NumberReads(p, fmt);
    NumberStarts(p);
    assert all[1..] == Directive(p) + fmt && all[1 + size..] == fmt && given[1..] == args;
    NumberFits(all, given, size);
    OneChunk(Written(p), Passed(p), Meant(p), fmt, args);
  }

  lemma NumParts(p: Part)
    requires p.Num? && PartOk(p)
    ensures NumberOk(p) && 1 + |Directive(p)| < 14 && NUL !in p.printed
  {}

  lemma NumberStarts(p: Part)
    requires p.Num? && NumberOk(p)
    ensures Directive(p) != [] && Directive(p)[0] !in {37, 98, 115}
  {}

  // ---------- Words ----------

  function WordFormat(parts: seq<Part>): Bytes {
    if parts == [] then [] else Written(parts[0]) + WordFormat(parts[1..])
  }

  function WordArgs(parts: seq<Part>): seq<VarArg> {
    if parts == [] then [] else Passed(parts[0]) + WordArgs(parts[1..])
  }

  function WordMeant(parts: seq<Part>): Bytes {
    if parts == [] then [] else Meant(parts[0]) + WordMeant(parts[1..])
  }

  ghost predicate WordOk(parts: seq<Part>) {
    parts != [] && forall i :: 0 <= i < |parts| ==> PartOk(parts[i])
  }

  lemma {:induction false} WordLeads(parts: seq<Part>, fmt: Bytes, args: seq<VarArg>)
    requires WordOk(parts) && Fits(fmt, args) && Pieces(fmt, args).Some?
    ensures Leads(WordFormat(parts), WordArgs(parts), WordMeant(parts), fmt, args)
    decreases |parts|
  {
    hide Fits, Pieces, Remaining, PartOk, Written, Passed, Meant;
    var p, rest := parts[0], parts[1..];
    if rest == [] {
      PartLeads(p, fmt, args);
      assert Written(p) + WordFormat(rest) == Written(p) && Passed(p) + WordArgs(rest) == Passed(p);
      assert Meant(p) + WordMeant(rest) == Meant(p);
    } else {
      WordLeads(rest, fmt, args);
      PartLeads(p, WordFormat(rest) + fmt, WordArgs(rest) + args);
      LeadsJoin(Written(p), Passed(p), Meant(p), WordFormat(rest), WordArgs(rest), WordMeant(rest), fmt, args);
    }
  }

  /** The words with one space between them. */
  function Format(words: seq<seq<Part>>): Bytes {
    if words == [] then []
    else if |words| == 1 then WordFormat(words[0])
    else WordFormat(words[0]) + ([SPACE] + Format(words[1..]))
  }

  function Args(words: seq<seq<Part>>): seq<VarArg> {
    if words == [] then [] else WordArgs(words[0]) + Args(words[1..])
  }

  ghost function Meanings(words: seq<seq<Part>>): seq<Bytes> {
    if words == [] then [] else [WordMeant(words[0])] + Meanings(words[1..])
  }

  lemma {:induction false} WordsRead(words: seq<seq<Part>>)
    requires forall i :: 0 <= i < |words| ==> WordOk(words[i])
    ensures Fits(Format(words), Args(words)) && Pieces(Format(words), Args(words)).Some?
    ensures Tokens(Pieces(Format(words), Args(words)).value) == Meanings(words)
    decreases |words|
  {
    if words == [] {
      assert Pieces([], []) == Some([]);
    } else {
      hide Fits, Pieces, Remaining, Tokens, WordOk, WordFormat, WordArgs, WordMeant;
      var word, rest := words[0], words[1..];
      WordsRead(rest);
      var fmt := if rest == [] then [] else [SPACE] + Format(rest);
      if rest == [] {
        NothingFits(fmt, Args(rest));
        NoMore(true, [] + WordMeant(word));
        assert WordFormat(word) + fmt == WordFormat(word);
      } else {
        assert fmt[1..] == Format(rest);
        SpaceFits(fmt, Args(rest));
        GapNext(true, [] + WordMeant(word), Pieces(Format(rest), Args(rest)).value);
      }
      WordLeads(word, fmt, Args(rest));
      FirstWord(word, fmt, Args(rest));
      assert [] + WordMeant(word) == WordMeant(word);
    }
  }

  lemma FirstWord(word: seq<Part>, fmt: Bytes, args: seq<VarArg>)
    requires Leads(WordFormat(word), WordArgs(word), WordMeant(word), fmt, args)
    ensures Tokens(Pieces(WordFormat(word) + fmt, WordArgs(word) + args).value)
      == Remaining(true, [] + WordMeant(word), Pieces(fmt, args).value)
  {
    hide Fits, Pieces, Remaining, Tokens, WordFormat, WordArgs, WordMeant;
    var ps := Pieces(WordFormat(word) + fmt, WordArgs(word) + args).value;
    Untouched([], ps);
    var none: Bytes := [];
    assert Remaining(false, none, ps) == Remaining(true, none + WordMeant(word), Pieces(fmt, args).value);
  }

  /** Every word makes one argument: its literals, C strings up to their terminators, byte
      strings, percent signs and numbers, in order. */
  lemma WordsPass(words: seq<seq<Part>>)
    requires forall i :: 0 <= i < |words| ==> WordOk(words[i])
    ensures Fits(Format(words), Args(words))
    ensures Arguments(Format(words), Args(words)) == Some(Meanings(words))
  {
    hide Fits, Pieces, Tokens, WordOk;
    WordsRead(words);
    ArgumentsAre(Format(words), Args(words));
  }

  // ---------- What else a percent sign can be ----------

  /** A number directive of fourteen bytes or more prints nothing. Its number is used up, and
      all behind its first two bytes is read again, as literals or directives. */
  lemma LongNumber(p: Part, fmt: Bytes, args: seq<VarArg>)
    requires p.Num? && NumberOk(p) && 1 + |Directive(p)| >= 14 && Fits((Written(p) + fmt)[2..], args)
    ensures Fits(Written(p) + fmt, Passed(p) + args)
    ensures Pieces(Written(p) + fmt, Passed(p) + args) == Behind(Chunk([]), Pieces((Written(p) + fmt)[2..], args))
  {
    hide Fits, Pieces, ConversionIn, NumberOk, Directive;
    var all, given := Written(p) + fmt, Passed(p) + args;
    NumberReads(p, fmt);
    NumberStarts(p);
    Unprinted(p);
    assert all[1..] == Directive(p) + fmt && given[1..] == args;
    LongFits(all, given, |Directive(p)|);
  }

  lemma Unprinted(p: Part)
    requires p.Num? && NumberOk(p)
    ensures NUL !in p.printed
  {}

  lemma LongFits(fmt: Bytes, args: seq<VarArg>, size: nat)
    requires |fmt| > size >= 13 && fmt[0] == 37 && fmt[1] !in {37, 98, 115}
    requires args != [] && args[0].Number? && NUL !in args[0].text
    requires ConversionIn(fmt[1..]) == Converts(size, args[0].kind) && Fits(fmt[2..], args[1..])
    ensures Fits(fmt, args) && Pieces(fmt, args) == Behind(Chunk([]), Pieces(fmt[2..], args[1..]))
  {
    hide ConversionIn;
  }

  /** What can stand where the letters of a conversion are due, and is none: a byte that begins
      no conversion, or a modifier h, hh, l or ll without an integer letter behind it. */
  predicate NoLetters(t: Bytes) {
    && t != [] && t[0] !in {0, 35, 48, 45, 43, 32, 46} && !(48 <= t[0] <= 57)
    && !IntLetter(t[0]) && !DoubleLetter(t[0])
    && (t[0] == 104 || t[0] == 108 ==>
          var behind := if |t| > 1 && t[1] == t[0] then t[2..] else t[1..];
          behind == [] || !IntLetter(behind[0]))
  }

  lemma NoLettersRead(t: Bytes)
    requires NoLetters(t)
    ensures Letters(t) == Invalid
  {}

  /** Without letters a directive makes the template invalid, whatever flags, width and
      precision it has. With one of these "%s", "%b" and "%%" are among the invalid ones. */
  lemma InvalidDirective(flags: Bytes, width: Bytes, precision: Bytes, t: Bytes, args: seq<VarArg>)
    requires AllFlags(flags) && AllDigits(width) && (width != [] ==> width[0] != 48)
    requires precision == [] || (precision[0] == 46 && AllDigits(precision[1..]))
    requires NoLetters(t) && (flags + width + precision == [] ==> t[0] !in {37, 115, 98})
    ensures var fmt := [37] + (flags + (width + (precision + t)));
      Fits(fmt, args) && Arguments(fmt, args) == None
  {
    hide PrefixIn, Letters, NoLetters;
    var s := flags + (width + (precision + t));
    FirstByte(flags, width, precision, t);
    PrefixEnds(flags, width, precision, t);
    NoLettersRead(t);
    assert s[|flags| + |width| + |precision|..] == t && ([37] + s)[1..] == s;
  }

  lemma FirstByte(flags: Bytes, width: Bytes, precision: Bytes, t: Bytes)
    requires AllFlags(flags) && AllDigits(width)
    requires precision == [] || precision[0] == 46
    requires NoLetters(t) && (flags + width + precision == [] ==> t[0] !in {37, 115, 98})
    ensures t != [] && t[0] !in {35, 48, 45, 43, 32, 46} && !(48 <= t[0] <= 57)
    ensures var s := flags + (width + (precision + t)); s != [] && s[0] !in {37, 115, 98}
  {
    if flags == [] {
      if width == [] { assert precision == [] ==> flags + width + precision == []; }
    }
  }

  ghost predicate Wrong(fmt: Bytes, args: seq<VarArg>) { Fits(fmt, args) && Pieces(fmt, args).None? }

  lemma {:induction false} TextWrong(t: Bytes, fmt: Bytes, args: seq<VarArg>)
    requires (forall i :: 0 <= i < |t| ==> t[i] != 37 && t[i] != 32 && t[i] != 0) && Wrong(fmt, args)
    ensures Wrong(t + fmt, args)
  {
    hide Fits, Pieces;
    if t == [] {
      assert t + fmt == fmt;
    } else {
      TextWrong(t[1..], fmt, args);
      assert (t + fmt)[1..] == t[1..] + fmt;
      TextFits(t + fmt, args);
    }
  }

  lemma PartWrong(p: Part, fmt: Bytes, args: seq<VarArg>)
    requires PartOk(p) && Wrong(fmt, args)
    ensures Wrong(Written(p) + fmt, Passed(p) + args)
  {
    hide Fits, Pieces, ConversionIn, UpToNul, NumberOk, Directive;
    var all, given := Written(p) + fmt, Passed(p) + args;
    match p
    case Text(t) =>
      TextWrong(t, fmt, args);
      assert given == args;
    case Str(text, after) =>
      assert all[2..] == fmt && given[1..] == args;
      StringFits(all, given);
    case Bin(data) =>
      assert all[2..] == fmt && given[1..] == args;
      BinaryFits(all, given);
    case Percent =>
      assert all[2..] == fmt && given == args;
      PercentFits(all, given);
    case Num(_, _, _, _, _, _) =>
      NumParts(p);
      NumberReads(p, fmt);
      NumberStarts(p);
      var size := |Directive(p)|;
      assert all[1..] == Directive(p) + fmt && all[1 + size..] == fmt && given[1..] == args;
      NumberFits(all, given, size);
  }

  lemma {:induction false} WordWrong(parts: seq<Part>, fmt: Bytes, args: seq<VarArg>)
    requires (forall i :: 0 <= i < |parts| ==> PartOk(parts[i])) && Wrong(fmt, args)
    ensures Wrong(WordFormat(parts) + fmt, WordArgs(parts) + args)
    decreases |parts|
  {
    hide Wrong, PartOk, Written, Passed;
    if parts == [] {
      assert [] + fmt == fmt && [] + args == args;
    } else {
      WordWrong(parts[1..], fmt, args);
      PartWrong(parts[0], WordFormat(parts[1..]) + fmt, WordArgs(parts[1..]) + args);
      Regroup(Written(parts[0]), WordFormat(parts[1..]), fmt);
      Regroup(Passed(parts[0]), WordArgs(parts[1..]), args);
    }
  }

  /** Words in front of an invalid template do not make it valid. */
  lemma {:induction false} WordsInvalid(words: seq<seq<Part>>, fmt: Bytes, args: seq<VarArg>)
    requires forall i :: 0 <= i < |words| ==> WordOk(words[i])
    requires words != [] && Fits(fmt, args) && Arguments(fmt, args) == None
    ensures Fits(Format(words) + ([32] + fmt), Args(words) + args)
    ensures Arguments(Format(words) + ([32] + fmt), Args(words) + args) == None
    decreases |words|
  {
    hide Fits, Pieces, WordOk, WordFormat, WordArgs;
    var word, rest, tail := words[0], words[1..], [32] + fmt;
    assert tail[1..] == fmt;
    SpaceFits(tail, args);
    PartsOk(word);
    if rest == [] {
      WordWrong(word, tail, args);
      assert Args(words) == WordArgs(word);
    } else {
      WordsInvalid(rest, fmt, args);
      var more, others := Format(rest) + tail, Args(rest) + args;
      assert ([32] + more)[1..] == more;
      SpaceFits([32] + more, others);
      WordWrong(word, [32] + more, others);
      Regroup(WordFormat(word), [32] + Format(rest), tail);
      Regroup([32], Format(rest), tail);
      Regroup(WordArgs(word), Args(rest), args);
    }
  }

  lemma PartsOk(word: seq<Part>)
    requires WordOk(word)
    ensures forall i :: 0 <= i < |word| ==> PartOk(word[i])
  {}
}
