/** Replies as they stand on the wire, byte by byte and with no parser: which bytes are a
    reply of which value, and which bytes can never become one. The grammar that the reader
    is proved against accepts exactly these forms and refuses exactly those. */
module WireForms {
  import opened Bytes
  import opened Numbers
  import opened Resp
  import Commands

  // ---------- Lines and numbers ----------

  /** Without a carriage return that a line feed follows. */
  ghost predicate OneLine(t: Bytes) { forall i :: 0 <= i < |t| - 1 ==> !(t[i] == 13 && t[i + 1] == 10) }

  ghost function Weight(t: Bytes): int {
    if t == [] then 0 else 10 * Weight(t[..|t| - 1]) + (t[|t| - 1] as int - 48)
  }

  /** Digits with no needless zero in front. */
  ghost predicate Digits(t: Bytes, n: int) {
    t != [] && (forall i :: 0 <= i < |t| ==> 48 <= t[i] <= 57) && (t[0] == 48 ==> |t| == 1) && Weight(t) == n
  }

  ghost predicate Notation(t: Bytes, v: int) {
    if v < 0 then t != [] && t[0] == 45 && Digits(t[1..], -v) else Digits(t, v)
  }

  /** Not a number of 64 bits. */
  ghost predicate NoNumber(t: Bytes) {
    forall v :: Notation(t, v) ==> !(-0x8000_0000_0000_0000 <= v < 0x8000_0000_0000_0000)
  }

  lemma {:induction false} WeightIsValue(t: Bytes)
    requires AllDigits(t)
    ensures Weight(t) == Value(t)
  {
    if t != [] { WeightIsValue(t[..|t| - 1]); }
  }

  lemma {:induction false} ZeroWeight(t: Bytes)
    requires Digits(t, 0)
    ensures t == [48]
  {
    if |t| > 1 {
      var front := t[..|t| - 1];
      assert Weight(front) == 0 by { WeightIsValue(front); WeightIsValue(t); }
      ZeroWeight(front);
    }
  }

  lemma NumberIff(t: Bytes, v: int)
    ensures ParseLong(t) == Some(v) <==> Notation(t, v) && -0x8000_0000_0000_0000 <= v < 0x8000_0000_0000_0000
  {
    if t != [] && t[0] == 45 {
      if AllDigits(t[1..]) {
        WeightIsValue(t[1..]);
        if |t| > 1 && t[1] != 48 && Digits(t[1..], 0) { ZeroWeight(t[1..]); }
      }
    } else if AllDigits(t) {
      WeightIsValue(t);
    }
  }

  // ---------- Forms of replies ----------

  /** A line of a status, an error or a number; a bulk string, its length in front and any
      two bytes behind; the two ways to write nil; an array, its count in front. */
  datatype Form =
    | StatusLine(text: Bytes)
    | ErrorLine(text: Bytes)
    | NumberLine(digits: Bytes, value: int)
    | Bulk(digits: Bytes, text: Bytes, x: Byte, y: Byte)
    | NilBulk
    | NilArray
    | Items(digits: Bytes, forms: seq<Form>)

  /** Arrays are opened at levels 0 to 7. */
  ghost predicate FormOk(f: Form, level: nat) {
    match f
    case StatusLine(t) => OneLine(t)
    case ErrorLine(t) => OneLine(t)
    case NumberLine(digits, v) => Notation(digits, v) && -0x8000_0000_0000_0000 <= v < 0x8000_0000_0000_0000
    case Bulk(digits, t, _, _) => Notation(digits, |t|) && |t| < 0x8000_0000_0000_0000
    case NilBulk => true
    case NilArray => level < 8
    case Items(digits, forms) =>
      level < 8 && Notation(digits, |forms|) && |forms| < 0x8000_0000 && AllOk(forms, level + 1)
  }

  ghost predicate AllOk(forms: seq<Form>, level: nat) {
    forms == [] || (FormOk(forms[0], level) && AllOk(forms[1..], level))
  }

  function Written(f: Form): Bytes {
    match f
    case StatusLine(t) => [43] + (t + [13, 10])
    case ErrorLine(t) => [45] + (t + [13, 10])
    case NumberLine(digits, _) => [58] + (digits + [13, 10])
    case Bulk(digits, t, x, y) => [36] + (digits + [13, 10] + (t + [x, y]))
    case NilBulk => [36, 45, 49, 13, 10]
    case NilArray => [42, 45, 49, 13, 10]
    case Items(digits, forms) => [42] + (digits + [13, 10] + AllWritten(forms))
  }

  function AllWritten(forms: seq<Form>): Bytes {
    if forms == [] then [] else Written(forms[0]) + AllWritten(forms[1..])
  }

  function Meant(f: Form): Reply {
    match f
    case StatusLine(t) => Status(t)
    case ErrorLine(t) => Error(t)
    case NumberLine(_, v) => Integer(v)
    case Bulk(_, t, _, _) => Str(t)
    case NilBulk => Nil
    case NilArray => Nil
    case Items(_, forms) => Array(AllMeant(forms))
  }

  function AllMeant(forms: seq<Form>): seq<Reply> {
    if forms == [] then [] else [Meant(forms[0])] + AllMeant(forms[1..])
  }

  // ---------- Lines in a stream ----------

  lemma LineFound(t: Bytes, x: Bytes)
    requires OneLine(t)
    ensures var s := t + [13, 10] + x; FindCRLF(s) == Option.Some(|t|) && s[..|t|] == t && s[|t| + 2..] == x
  {
    var s := t + [13, 10] + x;
    assert CrlfAt(s, |t|);
  }

  lemma FoundLine(s: Bytes)
    requires FindCRLF(s).Some?
    ensures var k := FindCRLF(s).value;
      OneLine(s[..k]) && s == s[..k] + [13, 10] + s[k + 2..]
  {
    hide FindCRLF;
    var k := FindCRLF(s).value;
    var line := s[..k];
    assert CrlfAt(s, k);
    forall i: nat | i + 1 < k ensures !(line[i] == 13 && line[i + 1] == 10) {
      assert !CrlfAt(s, i);
      assert line[i] == s[i] && line[i + 1] == s[i + 1];
    }
  }

  /** No number has a line end in it. */
  lemma NumberOneLine(t: Bytes, v: int)
    requires Notation(t, v)
    ensures OneLine(t)
  {
    if v < 0 { assert forall i :: 0 < i < |t| ==> t[i] == t[1..][i - 1]; }
  }

  lemma NumberFound(t: Bytes, v: int, x: Bytes)
    requires Notation(t, v) && -0x8000_0000_0000_0000 <= v < 0x8000_0000_0000_0000
    ensures var s := t + [13, 10] + x;
      FindCRLF(s) == Option.Some(|t|) && ParseLong(s[..|t|]) == Option.Some(v) && s[|t| + 2..] == x
  {
    NumberOneLine(t, v);
    LineFound(t, x);
    NumberIff(t, v);
  }

  lemma MinusOne()
    ensures Notation([45, 49], -1) && Notation([49], 1)
  {
    assert [45, 49][1..] == [49] && [49][..0] == [];
  }

  // ---------- Every form is read ----------

  lemma {:induction false} FormReads(f: Form, level: nat, x: Bytes)
    requires level <= 8 && FormOk(f, level)
    ensures ParseReply(Written(f) + x, level) == Done(Meant(f), x)
    decreases f, 1
  {
    hide Notation, ParseLine, ParseBulk, ParseArray, FindCRLF;
    match f
    case StatusLine(t) =>
      Ahead(43, t + [13, 10], x);
      LineReads(TStatus, t, x);
    case ErrorLine(t) =>
      Ahead(45, t + [13, 10], x);
      LineReads(TError, t, x);
    case NumberLine(digits, v) =>
      Ahead(58, digits + [13, 10], x);
      NumberReads(digits, v, x);
    case Bulk(digits, t, x', y') =>
      Ahead(36, digits + [13, 10] + (t + [x', y']), x);
      Regroup(digits + [13, 10], t + [x', y'], x);
      BulkReads(digits, t, x', y', x);
    case NilBulk => NilReads(level, x);
    case NilArray => NilReads(level, x);
    case Items(digits, forms) =>
      Ahead(42, digits + [13, 10] + AllWritten(forms), x);
      Regroup(digits + [13, 10], AllWritten(forms), x);
      AllRead(forms, level + 1, x);
      ItemsRead(digits, AllMeant(forms), AllWritten(forms) + x, level, x);
  }

  lemma Ahead(b: Byte, body: Bytes, x: Bytes)
    ensures var s := [b] + body + x; s != [] && s[0] == b && s[1..] == body + x
  {}

  lemma LineReads(t: ItemType, text: Bytes, x: Bytes)
    requires OneLine(text) && t in {TStatus, TError}
    ensures ParseLine(t, text + [13, 10] + x) == Done(if t == TError then Error(text) else Status(text), x)
  {
    LineFound(text, x);
  }

  lemma NumberReads(digits: Bytes, v: int, x: Bytes)
    requires Notation(digits, v) && -0x8000_0000_0000_0000 <= v < 0x8000_0000_0000_0000
    ensures ParseLine(TInteger, digits + [13, 10] + x) == Done(Integer(v), x)
  {
    NumberFound(digits, v, x);
  }

  lemma BulkReads(digits: Bytes, t: Bytes, x': Byte, y': Byte, x: Bytes)
    requires Notation(digits, |t|) && |t| < 0x8000_0000_0000_0000
    ensures ParseBulk(digits + [13, 10] + (t + [x', y'] + x)) == Done(Str(t), x)
  {
    hide Notation, FindCRLF, ParseLong;
    var rest := t + [x', y'] + x;
    NumberFound(digits, |t|, rest);
    assert rest[..|t|] == t && rest[|t| + 2..] == x;
  }

  lemma NilReads(level: nat, x: Bytes)
    requires level <= 8
    ensures ParseReply([36, 45, 49, 13, 10] + x, level) == Done(Nil, x)
    ensures level < 8 ==> ParseReply([42, 45, 49, 13, 10] + x, level) == Done(Nil, x)
  {
    hide Notation, FindCRLF, ParseLong;
    MinusOne();
    NumberFound([45, 49], -1, x);
    assert ([36, 45, 49, 13, 10] + x)[1..] == [45, 49] + [13, 10] + x;
    assert ([42, 45, 49, 13, 10] + x)[1..] == [45, 49] + [13, 10] + x;
    assert level < 8 ==> ParseArray([45, 49] + [13, 10] + x, level) == Done(Nil, x);
  }

  lemma ItemsRead(digits: Bytes, values: seq<Reply>, items: Bytes, level: nat, x: Bytes)
    requires level < 8 && Notation(digits, |values|) && |values| < 0x8000_0000
    requires ParseItems(items, |values|, level + 1) == Done(values, x)
    ensures ParseArray(digits + [13, 10] + items, level) == Done(Array(values), x)
  {
    hide Notation, FindCRLF, ParseLong;
    NumberFound(digits, |values|, items);
  }

  lemma {:induction false} AllRead(forms: seq<Form>, level: nat, x: Bytes)
    requires level <= 8 && AllOk(forms, level)
    ensures |AllMeant(forms)| == |forms|
    ensures ParseItems(AllWritten(forms) + x, |forms|, level) == Done(AllMeant(forms), x)
    decreases forms, 0
  {
    if forms == [] {
      assert [] + x == x;
    } else {
      hide FormOk, ParseReply, Written, Meant;
      FormReads(forms[0], level, AllWritten(forms[1..]) + x);
      AllRead(forms[1..], level, x);
      Regroup(Written(forms[0]), AllWritten(forms[1..]), x);
    }
  }

  // ---------- Only forms are read ----------

  /** The form at the front of what is read as a reply. */
  lemma {:induction false} ReadsForm(s: Bytes, level: nat) returns (f: Form)
    requires level <= 8 && ParseReply(s, level).Done?
    ensures FormOk(f, level) && s == Written(f) + ParseReply(s, level).rest && Meant(f) == ParseReply(s, level).value
    decreases |s|, 1
  {
    hide ParseLine, ParseBulk, ParseArray, FormOk, Written, Meant;
    var t := TypeOf(s[0]).value;
    assert s == [s[0]] + s[1..];
    match t
    case TString => f := BulkForm(s[1..], level);
    case TArray => f := ArrayForm(s[1..], level);
    case _ => f := LineForm(t, s[1..], level);
  }

  lemma LineForm(t: ItemType, r: Bytes, level: nat) returns (f: Form)
    requires t in {TStatus, TError, TInteger} && ParseLine(t, r).Done?
    ensures FormOk(f, level) && Meant(f) == ParseLine(t, r).value
    ensures [if t == TStatus then 43 else if t == TError then 45 else 58] + r == Written(f) + ParseLine(t, r).rest
  {
    hide Notation, ParseLong, FindCRLF;
    FoundLine(r);
    var k := FindCRLF(r).value;
    if t == TInteger {
      NumberIff(r[..k], ParseLong(r[..k]).value);
      f := NumberLine(r[..k], ParseLong(r[..k]).value);
    } else {
      f := if t == TError then ErrorLine(r[..k]) else StatusLine(r[..k]);
    }
  }

  lemma BulkForm(r: Bytes, level: nat) returns (f: Form)
    requires ParseBulk(r).Done?
    ensures FormOk(f, level) && [36] + r == Written(f) + ParseBulk(r).rest && Meant(f) == ParseBulk(r).value
  {
    hide Notation, ParseLong, FindCRLF, AllWritten;
    FoundLine(r);
    var k := FindCRLF(r).value;
    var n, rest := ParseLong(r[..k]).value, r[k + 2..];
    NumberIff(r[..k], n);
    if n == -1 {
      MinusOneOnly(r[..k]);
      f := NilBulk;
    } else {
      f := Bulk(r[..k], rest[..n], rest[n], rest[n + 1]);
      BulkCut(r, r[..k], rest, n);
    }
  }

  lemma BulkCut(r: Bytes, digits: Bytes, rest: Bytes, n: nat)
    requires r == digits + [13, 10] + rest && n + 2 <= |rest|
    ensures [36] + r == Written(Bulk(digits, rest[..n], rest[n], rest[n + 1])) + rest[n + 2..]
  {
    var item := rest[..n] + [rest[n], rest[n + 1]];
    assert rest == item + rest[n + 2..];
    Regroup(digits + [13, 10], item, rest[n + 2..]);
    Regroup([36], digits + [13, 10] + item, rest[n + 2..]);
  }

  lemma MinusOneOnly(t: Bytes)
    requires Notation(t, -1)
    ensures t == [45, 49]
  {
    NumberIff(t, -1);
    ParseLongIff(t, -1);
  }

  lemma ArrayForm(r: Bytes, level: nat) returns (f: Form)
    requires level < 8 && ParseArray(r, level).Done?
    ensures FormOk(f, level) && [42] + r == Written(f) + ParseArray(r, level).rest && Meant(f) == ParseArray(r, level).value
    decreases |r|, 3
  {
    hide Notation, ParseLong, FindCRLF, ParseItems, AllOk, AllWritten, AllMeant;
    FoundLine(r);
    var k := FindCRLF(r).value;
    var n, rest := ParseLong(r[..k]).value, r[k + 2..];
    NumberIff(r[..k], n);
    if n == -1 {
      MinusOneOnly(r[..k]);
      f := NilArray;
    } else {
      var forms := ReadForms(rest, n, level + 1);
      f := Items(r[..k], forms);
      ItemsCut(r, r[..k], AllWritten(forms), ParseArray(r, level).rest);
    }
  }

  lemma ItemsCut(r: Bytes, digits: Bytes, items: Bytes, x: Bytes)
    requires r == digits + [13, 10] + (items + x)
    ensures [42] + r == [42] + (digits + [13, 10] + items) + x
  {
    Regroup(digits + [13, 10], items, x);
    Regroup([42], digits + [13, 10] + items, x);
  }

  lemma {:induction false} ReadForms(s: Bytes, n: nat, level: nat) returns (forms: seq<Form>)
    requires level <= 8 && ParseItems(s, n, level).Done?
    ensures |forms| == n && AllOk(forms, level)
    ensures s == AllWritten(forms) + ParseItems(s, n, level).rest && AllMeant(forms) == ParseItems(s, n, level).value
    decreases |s|, 2, n
  {
    hide ParseReply, FormOk, Written, Meant;
    forms := [];
    if n > 0 {
      var f := ReadsForm(s, level);
      var rest := ParseReply(s, level).rest;
      var others := ReadForms(rest, n - 1, level);
      forms := [f] + others;
      assert forms[1..] == others;
      Regroup(Written(f), AllWritten(others), ParseItems(s, n, level).rest);
    } else {
      assert s == [] + s;
    }
  }

  // ---------- What is sent ----------

  /** A command on the wire: an array of bulk strings, every one with a line end behind. */
  function CommandForm(argv: seq<Bytes>): Form { Items(Dec(|argv|), Bulks(argv)) }

  function Bulks(argv: seq<Bytes>): seq<Form> {
    if argv == [] then [] else [Bulk(Dec(|argv[0]|), argv[0], 13, 10)] + Bulks(argv[1..])
  }

  lemma {:induction false} BulksWritten(argv: seq<Bytes>)
    ensures AllWritten(Bulks(argv)) == EncodeAll(Commands.Strs(argv)) && |Bulks(argv)| == |argv|
  {
    hide Dec;
    if argv != [] {
      BulksWritten(argv[1..]);
      assert Commands.Strs(argv)[1..] == Commands.Strs(argv[1..]);
      BulkWritten(argv[0]);
    }
  }

  lemma BulkWritten(arg: Bytes)
    ensures Written(Bulk(Dec(|arg|), arg, 13, 10)) == Encode(Str(arg))
  {
    hide Dec;
    assert Body(Str(arg)) == Dec(|arg|) + [13, 10] + arg + [13, 10];
    Regroup(Dec(|arg|) + [13, 10], arg, [13, 10]);
  }

  lemma CommandWritten(argv: seq<Bytes>)
    ensures Commands.Wire(argv) == Written(CommandForm(argv))
  {
    hide Dec;
    BulksWritten(argv);
    assert Body(Array(Commands.Strs(argv))) == Dec(|argv|) + [13, 10] + EncodeAll(Commands.Strs(argv));
  }

  lemma DecNotation(n: nat)
    ensures Digits(Dec(n), n)
  {
    ValueOfDec(n);
    WeightIsValue(Dec(n));
  }

  /** It is a form that every reader accepts. */
  lemma {:induction false} BulksOk(argv: seq<Bytes>, level: nat)
    requires forall i :: 0 <= i < |argv| ==> |argv[i]| < 0x8000_0000_0000_0000
    ensures AllOk(Bulks(argv), level)
    decreases |argv|
  {
    hide Dec, Digits;
    if argv != [] {
      DecNotation(|argv[0]|);
      BulksOk(argv[1..], level);
    }
  }

  lemma CommandOk(argv: seq<Bytes>)
    requires |argv| < 0x8000_0000 && forall i :: 0 <= i < |argv| ==> |argv[i]| < 0x8000_0000_0000_0000
    ensures FormOk(CommandForm(argv), 0)
  {
    hide Dec, Digits, AllOk;
    DecNotation(|argv|);
    BulksWritten(argv);
    BulksOk(argv, 1);
  }

  // ---------- What can never become a reply ----------

  /** Another type byte; a line that is no number where one is due; a length or a count that
      is out of range; an array at level 8; or one of these among the items of an array. */
  datatype Broken =
    | StrangeByte(b: Byte)
    | NumberGone(line: Bytes)
    | LengthGone(line: Bytes)
    | LengthBelow(digits: Bytes, v: int)
    | CountGone(line: Bytes)
    | CountOut(digits: Bytes, v: int)
    | Level8
    | Inside(digits: Bytes, n: int, before: seq<Form>, inner: Broken)

  ghost predicate BrokenAt(k: Broken, level: nat) {
    match k
    case StrangeByte(b) => b !in {36, 42, 43, 45, 58}
    case NumberGone(line) => OneLine(line) && NoNumber(line)
    case LengthGone(line) => OneLine(line) && NoNumber(line)
    case LengthBelow(digits, v) => Notation(digits, v) && -0x8000_0000_0000_0000 <= v < -1
    case CountGone(line) => level < 8 && OneLine(line) && NoNumber(line)
    case CountOut(digits, v) =>
      && level < 8 && Notation(digits, v)
      && (-0x8000_0000_0000_0000 <= v < -1 || 0x8000_0000 <= v < 0x8000_0000_0000_0000)
    case Level8 => level == 8
    case Inside(digits, n, before, inner) =>
      && level < 8 && Notation(digits, n) && |before| < n < 0x8000_0000
      && AllOk(before, level + 1) && BrokenAt(inner, level + 1)
  }

  function BrokenWritten(k: Broken): Bytes {
    match k
    case StrangeByte(b) => [b]
    case NumberGone(line) => [58] + (line + [13, 10])
    case LengthGone(line) => [36] + (line + [13, 10])
    case LengthBelow(digits, _) => [36] + (digits + [13, 10])
    case CountGone(line) => [42] + (line + [13, 10])
    case CountOut(digits, _) => [42] + (digits + [13, 10])
    case Level8 => [42]
    case Inside(digits, _, before, inner) => [42] + (digits + [13, 10] + (AllWritten(before) + BrokenWritten(inner)))
  }

  function Verdict(k: Broken): ProtocolError {
    match k
    case StrangeByte(b) => BadTypeByte(b)
    case NumberGone(_) => BadInteger
    case LengthGone(_) => BadBulkLength
    case LengthBelow(_, _) => BulkLengthOutOfRange
    case CountGone(_) => BadMultiBulkLength
    case CountOut(_, _) => MultiBulkLengthOutOfRange
    case Level8 => TooDeep
    case Inside(_, _, _, inner) => Verdict(inner)
  }

  lemma NoNumberIff(t: Bytes)
    ensures NoNumber(t) <==> ParseLong(t) == Option.None
  {
    hide Notation, ParseLong;
    if ParseLong(t).Some? { NumberIff(t, ParseLong(t).value); }
    forall v | Notation(t, v) && -0x8000_0000_0000_0000 <= v < 0x8000_0000_0000_0000 ensures ParseLong(t).Some? {
      NumberIff(t, v);
    }
  }

  lemma {:induction false} BrokenFails(k: Broken, level: nat, x: Bytes)
    requires level <= 8 && BrokenAt(k, level)
    ensures ParseReply(BrokenWritten(k) + x, level) == Fail(Verdict(k))
    decreases k
  {
    hide Notation, NoNumber, ParseLong, FindCRLF, ParseItems;
    var s := BrokenWritten(k) + x;
    match k
    case StrangeByte(b) =>
    case NumberGone(line) => GoneFails(s, line, level, x);
    case LengthGone(line) => GoneFails(s, line, level, x);
    case LengthBelow(digits, v) => OutFails(s, digits, v, level, x);
    case CountGone(line) => GoneFails(s, line, level, x);
    case CountOut(digits, v) => OutFails(s, digits, v, level, x);
    case Level8 =>
    case Inside(digits, n, before, inner) =>
      var items := AllWritten(before) + BrokenWritten(inner);
      assert s[1..] == digits + [13, 10] + (items + x);
      BrokenFails(inner, level + 1, x);
      BrokenItems(before, n, inner, level + 1, x);
      Regroup(AllWritten(before), BrokenWritten(inner), x);
      ItemsFail(digits, n, items + x, level);
  }

  lemma GoneFails(s: Bytes, line: Bytes, level: nat, x: Bytes)
    requires level <= 8 && OneLine(line) && NoNumber(line) && s != [] && s[1..] == line + [13, 10] + x
    requires s[0] in {58, 36} || (s[0] == 42 && level < 8)
    ensures ParseReply(s, level)
      == Fail(if s[0] == 58 then BadInteger else if s[0] == 36 then BadBulkLength else BadMultiBulkLength)
  {
    hide ParseLine, ParseBulk, ParseHeader, NoNumber;
    LineGone(line, x);
    if s[0] == 42 { assert ParseArray(s[1..], level) == Fail(BadMultiBulkLength); }
  }

  lemma LineGone(line: Bytes, x: Bytes)
    requires OneLine(line) && NoNumber(line)
    ensures var r := line + [13, 10] + x;
      && ParseLine(TInteger, r) == Fail(BadInteger)
      && ParseBulk(r) == Fail(BadBulkLength)
      && ParseHeader(r) == Fail(BadMultiBulkLength)
  {
    hide FindCRLF, ParseLong, NoNumber;
    LineFound(line, x);
    NoNumberIff(line);
  }

  lemma OutFails(s: Bytes, digits: Bytes, v: int, level: nat, x: Bytes)
    requires level <= 8 && s != [] && s[1..] == digits + [13, 10] + x
    requires Notation(digits, v) && -0x8000_0000_0000_0000 <= v < 0x8000_0000_0000_0000
    requires (s[0] == 36 && v < -1) || (s[0] == 42 && level < 8 && (v < -1 || v >= 0x8000_0000))
    ensures ParseReply(s, level) == Fail(if s[0] == 36 then BulkLengthOutOfRange else MultiBulkLengthOutOfRange)
  {
    hide ParseBulk, ParseHeader, Notation;
    NumberOut(digits, v, x);
    if s[0] == 42 { assert ParseArray(s[1..], level) == Fail(MultiBulkLengthOutOfRange); }
  }

  lemma NumberOut(digits: Bytes, v: int, x: Bytes)
    requires Notation(digits, v) && -0x8000_0000_0000_0000 <= v < 0x8000_0000_0000_0000
    ensures var r := digits + [13, 10] + x;
      && (v < -1 ==> ParseBulk(r) == Fail(BulkLengthOutOfRange))
      && (v < -1 || v >= 0x8000_0000 ==> ParseHeader(r) == Fail(MultiBulkLengthOutOfRange))
  {
    hide FindCRLF, ParseLong, Notation;
    NumberFound(digits, v, x);
  }

  lemma ItemsFail(digits: Bytes, n: int, items: Bytes, level: nat)
    requires level < 8 && Notation(digits, n) && 0 <= n < 0x8000_0000
    ensures ParseItems(items, n, level + 1).Fail? ==>
      ParseTyped(TArray, digits + [13, 10] + items, level) == Fail(ParseItems(items, n, level + 1).error)
  {
    hide FindCRLF, ParseLong, Notation, ParseItems;
    NumberFound(digits, n, items);
  }

  lemma {:induction false} BrokenItems(before: seq<Form>, n: int, inner: Broken, level: nat, x: Bytes)
    requires level <= 8 && |before| < n && AllOk(before, level)
    requires ParseReply(BrokenWritten(inner) + x, level) == Fail(Verdict(inner))
    ensures ParseItems(AllWritten(before) + (BrokenWritten(inner) + x), n, level) == Fail(Verdict(inner))
    decreases before
  {
    hide ParseReply, FormOk, Written, BrokenWritten, Verdict;
    var tail := BrokenWritten(inner) + x;
    if before == [] {
      assert [] + tail == tail;
    } else {
      FormReads(before[0], level, AllWritten(before[1..]) + tail);
      BrokenItems(before[1..], n - 1, inner, level, x);
      Regroup(Written(before[0]), AllWritten(before[1..]), tail);
    }
  }

  /** What is broken at the front of a refused stream, and the bytes behind it. */
  lemma {:induction false} FailsBroken(s: Bytes, level: nat) returns (k: Broken, x: Bytes)
    requires level <= 8 && ParseReply(s, level).Fail?
    ensures BrokenAt(k, level) && s == BrokenWritten(k) + x && ParseReply(s, level) == Fail(Verdict(k))
    decreases |s|, 1
  {
    hide ParseLine, ParseBulk, ParseArray, BrokenAt;
    assert s == [s[0]] + s[1..];
    match TypeOf(s[0])
    case None =>
      k, x := StrangeByte(s[0]), s[1..];
      Strange(s[0], level);
    case Some(t) =>
      match t
      case TString => k, x := BrokenBulk(s[1..], level);
      case TArray => k, x := BrokenArray(s[1..], level);
      case _ => k, x := BrokenNumber(t, s[1..], level);
  }

  lemma Strange(b: Byte, level: nat)
    requires TypeOf(b).None?
    ensures BrokenAt(StrangeByte(b), level)
  {}

  lemma BrokenNumber(t: ItemType, r: Bytes, level: nat) returns (k: Broken, x: Bytes)
    requires t in {TStatus, TError, TInteger} && ParseLine(t, r).Fail?
    ensures t == TInteger && BrokenAt(k, level)
    ensures [58] + r == BrokenWritten(k) + x && ParseLine(t, r) == Fail(Verdict(k))
  {
    hide ParseLong, FindCRLF, NoNumber;
    FoundLine(r);
    var e := FindCRLF(r).value;
    NoNumberIff(r[..e]);
    k, x := NumberGone(r[..e]), r[e + 2..];
  }

  lemma BrokenBulk(r: Bytes, level: nat) returns (k: Broken, x: Bytes)
    requires ParseBulk(r).Fail?
    ensures BrokenAt(k, level) && [36] + r == BrokenWritten(k) + x && ParseBulk(r) == Fail(Verdict(k))
  {
    hide ParseLong, FindCRLF, NoNumber, Notation;
    FoundLine(r);
    var e := FindCRLF(r).value;
    NoNumberIff(r[..e]);
    x := r[e + 2..];
    if ParseLong(r[..e]).Some? {
      NumberIff(r[..e], ParseLong(r[..e]).value);
      k := LengthBelow(r[..e], ParseLong(r[..e]).value);
    } else {
      k := LengthGone(r[..e]);
    }
  }

  lemma {:induction false} BrokenArray(r: Bytes, level: nat) returns (k: Broken, x: Bytes)
    requires level <= 8 && ParseTyped(TArray, r, level).Fail?
    ensures BrokenAt(k, level) && [42] + r == BrokenWritten(k) + x && ParseTyped(TArray, r, level) == Fail(Verdict(k))
    decreases |r|, 3
  {
    hide ParseLong, FindCRLF, NoNumber, Notation, ParseItems, AllOk, AllWritten;
    if level == 8 { return Level8, r; }
    FoundLine(r);
    var e := FindCRLF(r).value;
    NoNumberIff(r[..e]);
    x := r[e + 2..];
    if ParseLong(r[..e]).None? {
      k := CountGone(r[..e]);
    } else {
      var n := ParseLong(r[..e]).value;
      NumberIff(r[..e], n);
      if n < -1 || n >= 0x8000_0000 {
        k := CountOut(r[..e], n);
      } else {
        var before, inner, y := FailsInside(x, n, level + 1);
        k := Inside(r[..e], n, before, inner);
        ItemsCut(r, r[..e], AllWritten(before) + BrokenWritten(inner), y);
        x := y;
      }
    }
  }

  lemma {:induction false} FailsInside(s: Bytes, n: nat, level: nat) returns (before: seq<Form>, inner: Broken, x: Bytes)
    requires level <= 8 && ParseItems(s, n, level).Fail?
    ensures |before| < n && AllOk(before, level) && BrokenAt(inner, level)
    ensures s == AllWritten(before) + BrokenWritten(inner) + x && ParseItems(s, n, level) == Fail(Verdict(inner))
    decreases |s|, 2, n
  {
    hide ParseReply, FormOk, Written, BrokenAt, BrokenWritten, Verdict;
    before := [];
    if ParseReply(s, level).Fail? {
      inner, x := FailsBroken(s, level);
      assert [] + BrokenWritten(inner) == BrokenWritten(inner);
    } else {
      var f := ReadsForm(s, level);
      var others;
      others, inner, x := FailsInside(ParseReply(s, level).rest, n - 1, level);
      before := [f] + others;
      assert before[1..] == others;
      Regroup(Written(f), AllWritten(others), BrokenWritten(inner));
      Regroup(Written(f), AllWritten(others) + BrokenWritten(inner), x);
    }
  }

  // ---------- Accepted, refused, or not yet complete ----------

  /** A reply is read if and only if one of its forms is at the front. */
  lemma AcceptedIff(s: Bytes, level: nat, v: Reply, rest: Bytes)
    requires level <= 8
    ensures ParseReply(s, level) == Done(v, rest)
      <==> exists f :: FormOk(f, level) && s == Written(f) + rest && Meant(f) == v
  {
    hide FormOk, Written, Meant, ParseReply;
    if ParseReply(s, level) == Done(v, rest) {
      var f := ReadsForm(s, level);
      assert FormOk(f, level);
    }
    forall f | FormOk(f, level) && s == Written(f) + rest && Meant(f) == v ensures ParseReply(s, level) == Done(v, rest) {
      FormReads(f, level, rest);
    }
  }

  ghost predicate Begins(k: Broken, s: Bytes) { BrokenWritten(k) <= s }

  /** A verdict is reached if and only if something broken in that way is at the front. */
  lemma RefusedIff(s: Bytes, level: nat, e: ProtocolError)
    requires level <= 8
    ensures ParseReply(s, level) == Fail(e)
      <==> exists k :: BrokenAt(k, level) && Begins(k, s) && Verdict(k) == e
  {
    hide BrokenAt, BrokenWritten, Verdict, ParseReply;
    if ParseReply(s, level) == Fail(e) {
      var k, x := FailsBroken(s, level);
      assert BrokenAt(k, level) && Begins(k, s);
    }
    forall k | BrokenAt(k, level) && Begins(k, s) && Verdict(k) == e ensures ParseReply(s, level) == Fail(e) {
      BrokenFails(k, level, s[|BrokenWritten(k)|..]);
      assert s == BrokenWritten(k) + s[|BrokenWritten(k)|..];
    }
  }

  lemma {:induction false} FormsRead(forms: seq<Form>, tail: Bytes)
    requires AllOk(forms, 0)
    ensures ReadAll(AllWritten(forms) + tail) == After(AllMeant(forms), ReadAll(tail))
    decreases forms
  {
    hide FormOk, Written, Meant, ParseReply;
    if forms == [] {
      assert [] + tail == tail && [] + ReadAll(tail).replies == ReadAll(tail).replies;
    } else {
      FormReads(forms[0], 0, AllWritten(forms[1..]) + tail);
      FormsRead(forms[1..], tail);
      Regroup(Written(forms[0]), AllWritten(forms[1..]), tail);
      AfterAfter([Meant(forms[0])], AllMeant(forms[1..]), ReadAll(tail));
    }
  }

  /** Every stream is forms in a row, and then either something broken, which is its error,
      or the beginning of what may still become a form. */
  lemma {:induction false} StreamForms(s: Bytes) returns (forms: seq<Form>, tail: Bytes)
    ensures AllOk(forms, 0) && s == AllWritten(forms) + tail && ReadAll(s).replies == AllMeant(forms)
    ensures match ReadAll(s).error
      case Some(e) => exists k :: BrokenAt(k, 0) && Begins(k, tail) && Verdict(k) == e
      case None =>
        && (forall f, rest :: FormOk(f, 0) ==> tail != Written(f) + rest)
        && (forall k :: BrokenAt(k, 0) ==> !Begins(k, tail))
    decreases |s|
  {
    hide FormOk, Written, Meant, ParseReply, BrokenAt, Begins, Verdict;
    forms, tail := [], s;
    match ParseReply(s, 0)
    case More =>
      forall f, rest | FormOk(f, 0) ensures tail != Written(f) + rest { AcceptedIff(s, 0, Meant(f), rest); }
      forall k | BrokenAt(k, 0) ensures !Begins(k, tail) { RefusedIff(s, 0, Verdict(k)); }
      assert s == [] + s;
    case Fail(e) =>
      RefusedIff(s, 0, e);
      assert s == [] + s;
    case Done(v, rest) =>
      var f := ReadsForm(s, 0);
      var others;
      others, tail := StreamForms(rest);
      forms := [f] + others;
      assert forms[1..] == others;
      Regroup(Written(f), AllWritten(others), tail);
  }
}
