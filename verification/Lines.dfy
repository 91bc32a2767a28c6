/** Command lines as they are typed (sdssplitargs): plain words, quotes and escapes, with blanks
    between them, and what each of them is read as. */
module Lines {
  import opened Bytes
  import opened Quoting

  // ---------- What a word is made of ----------

  /** Between double quotes: a byte, two hex digits with the value they stand for, or another
      escape with its value. */
  datatype Item = Raw(b: Byte) | Hex(high: Byte, low: Byte, value: Byte) | Escape(letter: Byte, meant: Byte)

  /** A hex digit of either case, with its value. */
  predicate Digit(d: Byte, v: nat) {
    if v < 10 then d == 48 + v else v < 16 && (d == 65 + (v - 10) || d == 97 + (v - 10))
  }

  predicate ItemOk(x: Item) {
    match x
    case Raw(b) => b != 0 && b != 34 && b != 92
    case Hex(high, low, value) => Digit(high, value / 16) && Digit(low, value % 16)
    case Escape(letter, meant) =>
      // n r t b a stand for control bytes, x begins a hex escape, any other byte is itself.
      if letter == 110 then meant == 10
      else if letter == 114 then meant == 13
      else if letter == 116 then meant == 9
      else if letter == 98 then meant == 8
      else if letter == 97 then meant == 7
      else letter != 0 && letter != 120 && meant == letter
  }

  function ItemWritten(x: Item): Bytes {
    match x
    case Raw(b) => [b]
    case Hex(high, low, _) => [92, 120, high, low]
    case Escape(letter, _) => [92, letter]
  }

  function ItemMeant(x: Item): Byte {
    match x case Raw(b) => b case Hex(_, _, value) => value case Escape(_, meant) => meant
  }

  /** How a word ends: as it began, or with a part in quotes of either kind. Between single
      quotes only the apostrophe has an escape. */
  datatype Ending = Open | Double(items: seq<Item>) | Single(bytes: Bytes)

  /** Plain bytes, then perhaps a quoted part. */
  datatype Word = Word(plain: Bytes, ending: Ending)

  ghost predicate WordOk(w: Word) {
    && (forall i :: 0 <= i < |w.plain| ==> w.plain[i] !in {0, 9, 10, 11, 12, 13, 32, 34, 39})
    && match w.ending
       case Open => w.plain != []
       case Double(items) => forall i :: 0 <= i < |items| ==> ItemOk(items[i])
       case Single(bytes) => forall i :: 0 <= i < |bytes| ==> bytes[i] != 0 && bytes[i] != 92
  }

  function ItemsWritten(items: seq<Item>): Bytes {
    if items == [] then [] else ItemWritten(items[0]) + ItemsWritten(items[1..])
  }

  function ItemsMeant(items: seq<Item>): Bytes {
    if items == [] then [] else [ItemMeant(items[0])] + ItemsMeant(items[1..])
  }

  function SingleWritten(bytes: Bytes): Bytes {
    if bytes == [] then [] else (if bytes[0] == 39 then [92, 39] else [bytes[0]]) + SingleWritten(bytes[1..])
  }

  function EndingWritten(e: Ending): Bytes {
    match e
    case Open => []
    case Double(items) => [34] + (ItemsWritten(items) + [34])
    case Single(bytes) => [39] + (SingleWritten(bytes) + [39])
  }

  function EndingMeant(e: Ending): Bytes {
    match e case Open => [] case Double(items) => ItemsMeant(items) case Single(bytes) => bytes
  }

  function Written(w: Word): Bytes { w.plain + EndingWritten(w.ending) }

  function Meant(w: Word): Bytes { w.plain + EndingMeant(w.ending) }

  // ---------- One word ----------

  predicate IsBlank(b: Byte) { b == 32 || b == 10 || b == 13 || b == 9 }

  /** A blank or the end of the line. */
  predicate Ends(rest: Bytes) { rest != [] ==> IsBlank(rest[0]) }

  lemma ItemReads(x: Item, rest: Bytes, current: Bytes)
    requires ItemOk(x)
    ensures Lex(ItemWritten(x) + rest, InQuotes, current) == Lex(rest, InQuotes, current + [ItemMeant(x)])
  {
    var s := ItemWritten(x) + rest;
    assert s[|ItemWritten(x)|..] == rest;
  }

  lemma {:induction false} DoubleReads(items: seq<Item>, rest: Bytes, current: Bytes)
    requires (forall i :: 0 <= i < |items| ==> ItemOk(items[i])) && Ends(rest)
    ensures Lex(ItemsWritten(items) + [34] + rest, InQuotes, current) == Token(current + ItemsMeant(items), rest)
    decreases |items|
  {
    var all := ItemsWritten(items) + [34] + rest;
    if items == [] {
      assert all[0] == 34 && all[1..] == rest && current + [] == current;
    } else {
      hide Lex, ItemOk, ItemWritten, ItemMeant;
      var more := ItemsWritten(items[1..]) + [34] + rest;
      assert all == ItemWritten(items[0]) + more;
      ItemReads(items[0], more, current);
      DoubleReads(items[1..], rest, current + [ItemMeant(items[0])]);
      assert current + [ItemMeant(items[0])] + ItemsMeant(items[1..]) == current + ItemsMeant(items);
    }
  }

  lemma {:induction false} SingleReads(bytes: Bytes, rest: Bytes, current: Bytes)
    requires (forall i :: 0 <= i < |bytes| ==> bytes[i] != 0 && bytes[i] != 92) && Ends(rest)
    ensures Lex(SingleWritten(bytes) + [39] + rest, InSingleQuotes, current) == Token(current + bytes, rest)
    decreases |bytes|
  {
    var all := SingleWritten(bytes) + [39] + rest;
    if bytes == [] {
      assert all[0] == 39 && all[1..] == rest && current + [] == current;
    } else {
      var more := SingleWritten(bytes[1..]) + [39] + rest;
      var first := if bytes[0] == 39 then [92, 39] else [bytes[0]];
      assert all == first + more && (first + more)[|first|..] == more;
      SingleReads(bytes[1..], rest, current + [bytes[0]]);
      assert current + [bytes[0]] + bytes[1..] == current + bytes;
    }
  }

  lemma {:induction false} PlainReads(plain: Bytes, rest: Bytes, current: Bytes)
    requires forall i :: 0 <= i < |plain| ==> plain[i] !in {0, 9, 10, 11, 12, 13, 32, 34, 39}
    ensures Lex(plain + rest, Plain, current) == Lex(rest, Plain, current + plain)
  {
    if plain == [] {
      assert plain + rest == rest && current + plain == current;
    } else {
      PlainReads(plain[1..], rest, current + [plain[0]]);
      assert (plain + rest)[1..] == plain[1..] + rest;
      assert current + [plain[0]] + plain[1..] == current + plain;
    }
  }

  lemma QuoteOpens(body: Bytes, current: Bytes)
    ensures Lex([34] + body, Plain, current) == Lex(body, InQuotes, current)
    ensures Lex([39] + body, Plain, current) == Lex(body, InSingleQuotes, current)
  {
    assert ([34] + body)[1..] == body && ([39] + body)[1..] == body;
  }

  lemma BlankCloses(rest: Bytes, current: Bytes)
    requires Ends(rest)
    ensures Lex(rest, Plain, current) == Token(current, if rest != [] then rest[1..] else rest)
  {}

  /** A word reads as its meaning. An open one takes the blank behind it along. */
  lemma WordReads(w: Word, rest: Bytes)
    requires WordOk(w) && Ends(rest)
    ensures Lex(Written(w) + rest, Plain, [])
      == Token(Meant(w), if w.ending.Open? && rest != [] then rest[1..] else rest)
  {
    hide Lex, ItemOk, Ends, ItemsWritten, ItemsMeant, SingleWritten;
    var tail := EndingWritten(w.ending) + rest;
    assert Written(w) + rest == w.plain + tail && [] + w.plain == w.plain;
    PlainReads(w.plain, tail, []);
    match w.ending
    case Open =>
      assert tail == rest && w.plain + [] == w.plain;
      BlankCloses(rest, w.plain);
    case Double(items) =>
      assert tail == [34] + (ItemsWritten(items) + [34] + rest);
      QuoteOpens(ItemsWritten(items) + [34] + rest, w.plain);
      DoubleReads(items, rest, w.plain);
    case Single(bytes) =>
      assert tail == [39] + (SingleWritten(bytes) + [39] + rest);
      QuoteOpens(SingleWritten(bytes) + [39] + rest, w.plain);
      SingleReads(bytes, rest, w.plain);
  }

  // ---------- Lines ----------

  ghost predicate Blank(gap: Bytes) { forall i :: 0 <= i < |gap| ==> IsBlank(gap[i]) }

  /** Blanks before, between and after the words; there is one at least between two words. */
  ghost predicate GapsOk(words: seq<Word>, gaps: seq<Bytes>) {
    && |gaps| == |words| + 1
    && (forall i :: 0 <= i < |gaps| ==> Blank(gaps[i]))
    && forall i :: 0 < i < |words| ==> gaps[i] != []
  }

  function Line(words: seq<Word>, gaps: seq<Bytes>): Bytes
    requires |gaps| == |words| + 1
  {
    if words == [] then gaps[0] else gaps[0] + (Written(words[0]) + Line(words[1..], gaps[1..]))
  }

  function Meanings(words: seq<Word>): seq<Bytes> {
    if words == [] then [] else [Meant(words[0])] + Meanings(words[1..])
  }

  lemma {:induction false} BlanksSkipped(gap: Bytes, rest: Bytes)
    requires Blank(gap)
    ensures SkipBlanks(gap + rest) == SkipBlanks(rest) && LexAll(gap + rest) == LexAll(rest)
  {
    if gap == [] {
      assert gap + rest == rest;
    } else {
      BlanksSkipped(gap[1..], rest);
      assert (gap + rest)[1..] == gap[1..] + rest;
    }
  }

  lemma WordStarts(w: Word)
    requires WordOk(w)
    ensures Written(w) != [] && !IsSpace(Written(w)[0]) && Written(w)[0] != NUL
  {}

  /** Each word of a line is read as what it means. */
  lemma {:induction false} LineReads(words: seq<Word>, gaps: seq<Bytes>)
    requires GapsOk(words, gaps) && forall i :: 0 <= i < |words| ==> WordOk(words[i])
    ensures LexAll(Line(words, gaps)) == Some(Meanings(words))
    decreases |words|
  {
    if words == [] {
      BlanksSkipped(gaps[0], []);
      assert gaps[0] + [] == gaps[0];
    } else {
      hide Lex, WordOk, Written, Meant;
      var w, rest := words[0], Line(words[1..], gaps[1..]);
      LineReads(words[1..], gaps[1..]);
      RestEnds(words[1..], gaps[1..]);
      WordStarts(w);
      WordReads(w, rest);
      BlanksSkipped(gaps[0], Written(w) + rest);
      if rest != [] { BlanksSkipped([rest[0]], rest[1..]); assert [rest[0]] + rest[1..] == rest; }
    }
  }

  lemma RestEnds(words: seq<Word>, gaps: seq<Bytes>)
    requires |gaps| == |words| + 1 && Blank(gaps[0]) && (words != [] ==> gaps[0] != [])
    ensures Ends(Line(words, gaps))
  {}

  // ---------- Lines that are refused ----------

  /** A double quote that is not closed. */
  lemma {:induction false} OpenDouble(items: seq<Item>, current: Bytes)
    requires forall i :: 0 <= i < |items| ==> ItemOk(items[i])
    ensures Lex(ItemsWritten(items), InQuotes, current) == Bad
    decreases |items|
  {
    if items != [] {
      hide ItemOk, ItemWritten, ItemMeant;
      ItemReads(items[0], ItemsWritten(items[1..]), current);
      OpenDouble(items[1..], current + [ItemMeant(items[0])]);
    }
  }

  /** A closing quote in the middle of a word. */
  lemma {:induction false} ClosedEarly(items: seq<Item>, b: Byte, rest: Bytes, current: Bytes)
    requires (forall i :: 0 <= i < |items| ==> ItemOk(items[i])) && b != 0 && !IsSpace(b)
    ensures Lex(ItemsWritten(items) + ([34, b] + rest), InQuotes, current) == Bad
    decreases |items|
  {
    hide Lex, ItemOk, ItemWritten, ItemMeant;
    var tail := [34, b] + rest;
    if items == [] {
      EarlyClose(b, rest, current);
      assert [] + tail == tail;
    } else {
      ItemReads(items[0], ItemsWritten(items[1..]) + tail, current);
      ClosedEarly(items[1..], b, rest, current + [ItemMeant(items[0])]);
      Regroup(ItemWritten(items[0]), ItemsWritten(items[1..]), tail);
    }
  }

  lemma EarlyClose(b: Byte, rest: Bytes, current: Bytes)
    requires b != 0 && !IsSpace(b)
    ensures Lex([34, b] + rest, InQuotes, current) == Bad
    ensures Lex([39, b] + rest, InSingleQuotes, current) == Bad
  {
    assert ([34, b] + rest)[1..] == [b] + rest && ([39, b] + rest)[1..] == [b] + rest;
  }

  /** The same of single quotes. */
  lemma {:induction false} SingleBad(bytes: Bytes, tail: Bytes, current: Bytes)
    requires forall i :: 0 <= i < |bytes| ==> bytes[i] != 0 && bytes[i] != 92
    requires tail == [] || (|tail| > 1 && tail[0] == 39 && tail[1] != 0 && !IsSpace(tail[1]))
    ensures Lex(SingleWritten(bytes) + tail, InSingleQuotes, current) == Bad
    decreases |bytes|
  {
    var all := SingleWritten(bytes) + tail;
    if bytes == [] {
      assert all == tail;
      if tail != [] {
        EarlyClose(tail[1], tail[2..], current);
        assert tail == [39, tail[1]] + tail[2..];
      }
    } else {
      var first := if bytes[0] == 39 then [92, 39] else [bytes[0]];
      Regroup(first, SingleWritten(bytes[1..]), tail);
      SingleBad(bytes[1..], tail, current + [bytes[0]]);
      assert all[|first|..] == SingleWritten(bytes[1..]) + tail;
    }
  }

  /** Plain bytes and a quote of either kind, which is never closed or closes before a byte
      that is no blank. */
  ghost predicate Unbalanced(s: Bytes, plain: Bytes, ending: Ending, tail: Bytes) {
    && (forall i :: 0 <= i < |plain| ==> plain[i] !in {0, 9, 10, 11, 12, 13, 32, 34, 39})
    && !ending.Open? && WordOk(Word(plain, ending))
    && (tail == [] || (|tail| > 1 && tail[0] == Mark(ending) && tail[1] != 0 && !IsSpace(tail[1])))
    && s == plain + ([Mark(ending)] + (Quoted(ending) + tail))
  }

  function Mark(e: Ending): Byte { if e.Single? then 39 else 34 }

  function Quoted(e: Ending): Bytes {
    match e case Open => [] case Double(items) => ItemsWritten(items) case Single(bytes) => SingleWritten(bytes)
  }

  lemma UnbalancedBad(s: Bytes, plain: Bytes, ending: Ending, tail: Bytes)
    requires Unbalanced(s, plain, ending, tail)
    ensures Lex(s, Plain, []) == Bad
  {
    hide Lex, ItemOk, ItemsWritten, SingleWritten;
    assert [] + plain == plain;
    match ending
    case Double(items) =>
      var body := ItemsWritten(items) + tail;
      PlainReads(plain, [34] + body, []);
      QuoteOpens(body, plain);
      if tail == [] {
        OpenDouble(items, plain);
        assert body == ItemsWritten(items);
      } else {
        ClosedEarly(items, tail[1], tail[2..], plain);
        assert tail == [34, tail[1]] + tail[2..];
      }
    case Single(bytes) =>
      var body := SingleWritten(bytes) + tail;
      PlainReads(plain, [39] + body, []);
      QuoteOpens(body, plain);
      SingleBad(bytes, tail, plain);
  }

  lemma UnbalancedStarts(s: Bytes, plain: Bytes, ending: Ending, tail: Bytes)
    requires Unbalanced(s, plain, ending, tail)
    ensures s != [] && !IsSpace(s[0]) && s[0] != NUL
  {}

  /** Whatever words stand before it, an unbalanced one makes the line no line. */
  lemma {:induction false} LineRefused(words: seq<Word>, gaps: seq<Bytes>, s: Bytes, plain: Bytes, ending: Ending, tail: Bytes)
    requires GapsOk(words, gaps) && forall i :: 0 <= i < |words| ==> WordOk(words[i])
    requires (words != [] ==> gaps[|words|] != []) && Unbalanced(s, plain, ending, tail)
    ensures LexAll(Line(words, gaps) + s) == None
    decreases |words|
  {
    hide Lex, WordOk, Written, Meant, Unbalanced;
    if words == [] {
      BlanksSkipped(gaps[0], s);
      UnbalancedBad(s, plain, ending, tail);
      UnbalancedStarts(s, plain, ending, tail);
    } else {
      var w, line := words[0], Line(words[1..], gaps[1..]);
      var rest := line + s;
      LineRefused(words[1..], gaps[1..], s, plain, ending, tail);
      LineStarts(words[1..], gaps[1..]);
      WordStarts(w);
      WordReads(w, rest);
      Regroup(gaps[0], Written(w) + line, s);
      Regroup(Written(w), line, s);
      BlanksSkipped(gaps[0], Written(w) + rest);
      BlanksSkipped([rest[0]], rest[1..]);
      assert [rest[0]] + rest[1..] == rest;
    }
  }

  lemma LineStarts(words: seq<Word>, gaps: seq<Bytes>)
    requires |gaps| == |words| + 1 && Blank(gaps[0]) && gaps[0] != []
    ensures Line(words, gaps) != [] && IsBlank(Line(words, gaps)[0])
  {}

  // ---------- What is printed ----------

  /** How a byte is printed between double quotes. */
  lemma Printed(b: Byte)
    ensures ReprByte(b) ==
      if b == 34 || b == 92 then [92, b]
      else if b == 10 then [92, 110]
      else if b == 13 then [92, 114]
      else if b == 9 then [92, 116]
      else if b == 7 then [92, 97]
      else if b == 8 then [92, 98]
      else if 32 <= b <= 126 then [b]
      else [92, 120, LowerDigit(b / 16), LowerDigit(b % 16)]
  {}

  function LowerDigit(v: nat): Byte
    requires v < 16
  {
    if v < 10 then 48 + v else 97 + (v - 10)
  }
}
