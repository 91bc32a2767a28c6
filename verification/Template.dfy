/** Command templates (redisvFormatCommand): literals, %s, %b, %% and the number conversions of
    printf. Only a literal space ends an argument; interpolated bytes never do. */
module Template {
  import opened Bytes
  import opened Numbers
  import opened Commands

  const LETTER_S: Byte := 115
  const LETTER_B: Byte := 98
  const LETTER_H: Byte := 104
  const LETTER_L: Byte := 108
  const POINT: Byte := 46

  // The size of the buffer for one number directive.
  const FORMAT_SIZE: nat := 16

  datatype NumberKind = IntArg | LongArg | LongLongArg | DoubleArg

  /** A variadic argument: a C string's memory, a pointer with its length, or a number, with
      what the C library prints for it, given the directive that reads it. */
  datatype VarArg =
    | CString(memory: Bytes)
    | Binary(data: Bytes)
    | Number(kind: NumberKind, text: Bytes)

  /** A percent sign is a directive unless it ends the template. */
  predicate IsDirective(fmt: Bytes) { |fmt| >= 2 && fmt[0] == PERCENT }

  // ---- number directives ----

  /** "#0-+ " */
  predicate IsFlag(b: Byte) { b in {35, 48, 45, 43, 32} }

  /** "diouxX" */
  predicate IsIntConversion(b: Byte) { b in {100, 105, 111, 117, 120, 88} }

  /** "eEfFgGaA" */
  predicate IsDoubleConversion(b: Byte) { b in {101, 69, 102, 70, 103, 71, 97, 65} }

  function FlagsIn(s: Bytes): (n: nat)
    ensures n <= |s| && (forall i :: 0 <= i < n ==> IsFlag(s[i])) && (n < |s| ==> !IsFlag(s[n]))
  {
    if s == [] || !IsFlag(s[0]) then 0 else 1 + FlagsIn(s[1..])
  }

  function DigitsIn(s: Bytes): (n: nat)
    ensures n <= |s| && (forall i :: 0 <= i < n ==> IsDigit(s[i])) && (n < |s| ==> !IsDigit(s[n]))
  {
    if s == [] || !IsDigit(s[0]) then 0 else 1 + DigitsIn(s[1..])
  }

  /** Flags, a field width and a precision. */
  function PrefixIn(s: Bytes): (n: nat)
    ensures n <= |s|
  {
    var flags := FlagsIn(s);
    var width := flags + DigitsIn(s[flags..]);
    if width < |s| && s[width] == POINT then width + 1 + DigitsIn(s[width + 1..]) else width
  }

  /** What follows the percent sign: a conversion of so many bytes for such a number, none,
      or one that the end of the template cuts off. */
  datatype Conversion = Converts(size: nat, kind: NumberKind) | Invalid | CutOff

  predicate StartsWith(s: Bytes, a: Byte, b: Byte) { |s| >= 2 && s[0] == a && s[1] == b }

  /** A conversion letter, perhaps behind one of the modifiers hh, h, ll and l. */
  function Letters(s: Bytes): (c: Conversion)
    ensures c.Converts? ==> 1 <= c.size <= |s|
  {
    if s == [] || s[0] == NUL then CutOff
    else if IsIntConversion(s[0]) then Converts(1, IntArg)
    else if IsDoubleConversion(s[0]) then Converts(1, DoubleArg)
    else if StartsWith(s, LETTER_H, LETTER_H) then Modified(s, 2, IntArg)
    else if s[0] == LETTER_H then Modified(s, 1, IntArg)
    else if StartsWith(s, LETTER_L, LETTER_L) then Modified(s, 2, LongLongArg)
    else if s[0] == LETTER_L then Modified(s, 1, LongArg)
    else Invalid
  }

  function Modified(s: Bytes, k: nat, kind: NumberKind): (c: Conversion)
    requires k <= |s|
    ensures c.Converts? ==> 1 <= c.size <= |s|
  {
    if k < |s| && IsIntConversion(s[k]) then Converts(k + 1, kind) else Invalid
  }

  function ConversionIn(s: Bytes): (c: Conversion)
    ensures c.Converts? ==> 1 <= c.size <= |s|
  {
    var n := PrefixIn(s);
    match Letters(s[n..])
    case Converts(size, kind) => Converts(n + size, kind)
    case other => other
  }

  // ---- what a template means, without a cursor ----

  /** A directive is copied only when the buffer has room for it. Otherwise it prints
      nothing, and all but its first two bytes are read as literals. */
  predicate Copied(size: nat) { 1 + size < FORMAT_SIZE - 2 }

  function After(size: nat): nat { if Copied(size) then 1 + size else 2 }

  /** The arguments are what the directives read, up to the first one that is invalid. */
  ghost predicate Fits(fmt: Bytes, args: seq<VarArg>) {
    if fmt == [] then true
    else if !IsDirective(fmt) then fmt[0] != NUL && Fits(fmt[1..], args)
    else if fmt[1] == LETTER_S then args != [] && args[0].CString? && Fits(fmt[2..], args[1..])
    else if fmt[1] == LETTER_B then args != [] && args[0].Binary? && Fits(fmt[2..], args[1..])
    else if fmt[1] == PERCENT then Fits(fmt[2..], args)
    else
      match ConversionIn(fmt[1..])
      case CutOff => false
      case Invalid => true
      case Converts(size, kind) =>
        && args != [] && args[0].Number? && args[0].kind == kind && NUL !in args[0].text
        && Fits(fmt[After(size)..], args[1..])
  }

  datatype Piece = Gap | Chunk(text: Bytes)

  ghost function Behind(p: Piece, rest: Option<seq<Piece>>): Option<seq<Piece>> {
    if rest.None? then None else Some([p] + rest.value)
  }

  function LiteralPiece(b: Byte): Piece { if b == SPACE then Gap else Chunk([b]) }

  /** The pieces, or nothing when there is an invalid directive. */
  ghost function Pieces(fmt: Bytes, args: seq<VarArg>): Option<seq<Piece>>
    requires Fits(fmt, args)
  {
    if fmt == [] then Some([])
    else if !IsDirective(fmt) then Behind(LiteralPiece(fmt[0]), Pieces(fmt[1..], args))
    else if fmt[1] == LETTER_S then Behind(Chunk(UpToNul(args[0].memory)), Pieces(fmt[2..], args[1..]))
    else if fmt[1] == LETTER_B then Behind(Chunk(args[0].data), Pieces(fmt[2..], args[1..]))
    else if fmt[1] == PERCENT then Behind(Chunk([PERCENT]), Pieces(fmt[2..], args))
    else
      match ConversionIn(fmt[1..])
      case Converts(size, _) =>
        Behind(Chunk(if Copied(size) then args[0].text else []), Pieces(fmt[After(size)..], args[1..]))
      case _ => None
  }

  /** How many chunks come before the first gap. */
  ghost function Run(ps: seq<Piece>): (k: nat)
    ensures k <= |ps| && (forall i :: 0 <= i < k ==> ps[i].Chunk?) && (k < |ps| ==> ps[k].Gap?)
  {
    if ps == [] || ps[0].Gap? then 0 else 1 + Run(ps[1..])
  }

  ghost function Texts(ps: seq<Piece>): Bytes
    requires forall i :: 0 <= i < |ps| ==> ps[i].Chunk?
  {
    if ps == [] then [] else ps[0].text + Texts(ps[1..])
  }

  /** The arguments: one for each run of chunks, even when all of them are empty. */
  ghost function Tokens(ps: seq<Piece>): seq<Bytes> {
    if ps == [] then []
    else if ps[0].Gap? then Tokens(ps[1..])
    else [Texts(ps[..Run(ps)])] + Tokens(ps[Run(ps)..])
  }

  /** The arguments still to come, when the current one has begun with `current`. */
  ghost function Remaining(touched: bool, current: Bytes, ps: seq<Piece>): seq<Bytes> {
    if touched then [current + Texts(ps[..Run(ps)])] + Tokens(ps[Run(ps)..]) else Tokens(ps)
  }

  lemma ChunkNext(touched: bool, current: Bytes, t: Bytes, ps: seq<Piece>)
    requires !touched ==> current == []
    ensures Remaining(touched, current, [Chunk(t)] + ps) == Remaining(true, current + t, ps)
  {
    var qs := [Chunk(t)] + ps;
    assert qs[1..] == ps;
    assert qs[..Run(qs)][1..] == ps[..Run(ps)];
    assert qs[Run(qs)..] == ps[Run(ps)..];
    assert Texts(qs[..Run(qs)]) == t + Texts(ps[..Run(ps)]);
    assert current + (t + Texts(ps[..Run(ps)])) == current + t + Texts(ps[..Run(ps)]);
    assert !touched ==> t + Texts(ps[..Run(ps)]) == current + t + Texts(ps[..Run(ps)]);
  }

  lemma GapNext(touched: bool, current: Bytes, ps: seq<Piece>)
    ensures Remaining(touched, current, [Gap] + ps) == (if touched then [current] else []) + Tokens(ps)
  {
    var qs := [Gap] + ps;
    assert qs[1..] == ps && qs[0..] == qs && qs[..0] == [];
    assert current + [] == current;
  }

  lemma NoMore(touched: bool, current: Bytes)
    ensures Remaining(touched, current, []) == if touched then [current] else []
  {
    var none: seq<Piece> := [];
    assert none[..0] == [] && none[0..] == [] && current + [] == current;
  }

  /** The arguments of a template, or nothing when it is invalid. */
  ghost function Arguments(fmt: Bytes, args: seq<VarArg>): Option<seq<Bytes>>
    requires Fits(fmt, args)
  {
    All([], false, [], Pieces(fmt, args))
  }

  /** Those found so far and those to come. */
  ghost function All(argv: seq<Bytes>, touched: bool, current: Bytes, rest: Option<seq<Piece>>): Option<seq<Bytes>> {
    if rest.None? then None else Some(argv + Remaining(touched, current, rest.value))
  }

  lemma ArgumentsAre(fmt: Bytes, args: seq<VarArg>)
    requires Fits(fmt, args) && Pieces(fmt, args).Some?
    ensures Arguments(fmt, args) == Some(Tokens(Pieces(fmt, args).value))
  {
    hide Pieces, Fits, Tokens;
    Untouched([], Pieces(fmt, args).value);
    assert [] + Tokens(Pieces(fmt, args).value) == Tokens(Pieces(fmt, args).value);
  }

  // ---- the formatter ----

  /** A literal byte. */
  lemma LiteralNext(fmt: Bytes, c: nat, args: seq<VarArg>, a: nat, argv: seq<Bytes>, touched: bool, current: Bytes)
    requires c < |fmt| && a <= |args| && Fits(fmt[c..], args[a..]) && !IsDirective(fmt[c..])
    requires !touched ==> current == []
    ensures Fits(fmt[c + 1..], args[a..])
    ensures All(argv, touched, current, Pieces(fmt[c..], args[a..]))
      == if fmt[c] != SPACE then All(argv, true, current + [fmt[c]], Pieces(fmt[c + 1..], args[a..]))
         else All(if touched then argv + [current] else argv, false, [], Pieces(fmt[c + 1..], args[a..]))
  {
    hide Remaining;
    assert fmt[c..][1..] == fmt[c + 1..];
    var rest := Pieces(fmt[c + 1..], args[a..]);
    if rest.Some? {
      if fmt[c] == SPACE {
        GapNext(touched, current, rest.value);
        Untouched([], rest.value);
        assert argv + ([current] + Tokens(rest.value)) == argv + [current] + Tokens(rest.value);
        assert argv + ([] + Tokens(rest.value)) == argv + Tokens(rest.value);
      } else {
        ChunkNext(touched, current, [fmt[c]], rest.value);
      }
    }
  }

  /** What a directive makes: the text, how far the cursor goes, and whether an argument is
      used up. */
  datatype Step = Step(text: Bytes, skip: nat, used: nat) | Bad

  ghost function StepAt(fmt: Bytes, args: seq<VarArg>): Step
    requires Fits(fmt, args) && IsDirective(fmt)
  {
    if fmt[1] == LETTER_S then Step(UpToNul(args[0].memory), 2, 1)
    else if fmt[1] == LETTER_B then Step(args[0].data, 2, 1)
    else if fmt[1] == PERCENT then Step([PERCENT], 2, 0)
    else
      match ConversionIn(fmt[1..])
      case Converts(size, _) => Step(if Copied(size) then args[0].text else [], After(size), 1)
      case _ => Bad
  }

  /** A directive. */
  lemma DirectiveNext(fmt: Bytes, c: nat, args: seq<VarArg>, a: nat, argv: seq<Bytes>, touched: bool, current: Bytes)
    requires c < |fmt| && a <= |args| && Fits(fmt[c..], args[a..]) && IsDirective(fmt[c..])
    requires !touched ==> current == []
    ensures var step := StepAt(fmt[c..], args[a..]);
      var all := All(argv, touched, current, Pieces(fmt[c..], args[a..]));
      if step.Bad? then all == None
      else
        && 2 <= step.skip <= |fmt| - c && step.used <= |args| - a && Fits(fmt[c + step.skip..], args[a + step.used..])
        && all == All(argv, true, current + step.text, Pieces(fmt[c + step.skip..], args[a + step.used..]))
  {
    hide Remaining, ConversionIn, UpToNul;
    var step := StepAt(fmt[c..], args[a..]);
    StepFits(fmt[c..], args[a..]);
    if !step.Bad? {
      assert fmt[c..][step.skip..] == fmt[c + step.skip..] && args[a..][step.used..] == args[a + step.used..];
      var rest := Pieces(fmt[c + step.skip..], args[a + step.used..]);
      if rest.Some? { ChunkNext(touched, current, step.text, rest.value); }
    }
  }

  lemma StepFits(fmt: Bytes, args: seq<VarArg>)
    requires Fits(fmt, args) && IsDirective(fmt)
    ensures var step := StepAt(fmt, args);
      if step.Bad? then Pieces(fmt, args) == None
      else
        && 2 <= step.skip <= |fmt| && step.used <= |args| && Fits(fmt[step.skip..], args[step.used..])
        && Pieces(fmt, args) == Behind(Chunk(step.text), Pieces(fmt[step.skip..], args[step.used..]))
  {
    assert args[0..] == args;
  }

  /** The scan over a number directive, from the byte behind the percent sign. */
  method ScanConversion(fmt: Bytes, start: nat) returns (r: Conversion)
    requires start <= |fmt|
    ensures r == ConversionIn(fmt[start..])
  {
    hide Letters;
    var p := ScanPrefix(fmt, start);
    r := ScanLetters(fmt, p);
    assert fmt[start..][p - start..] == fmt[p..];
    if r.Converts? { r := Converts(p - start + r.size, r.kind); }
  }

  method ScanPrefix(fmt: Bytes, start: nat) returns (p: nat)
    requires start <= |fmt|
    ensures p == start + PrefixIn(fmt[start..]) <= |fmt|
  {
    hide FlagsIn, DigitsIn;
    p := ScanFlags(fmt, start);
    assert fmt[start..][p - start..] == fmt[p..];
    p := ScanDigits(fmt, p);
    if p < |fmt| && fmt[p] == POINT {
      assert fmt[start..][p - start + 1..] == fmt[p + 1..];
      p := ScanDigits(fmt, p + 1);
    }
  }

  method ScanFlags(fmt: Bytes, start: nat) returns (p: nat)
    requires start <= |fmt|
    ensures p == start + FlagsIn(fmt[start..]) <= |fmt|
  {
    p := start;
    while p < |fmt| && IsFlag(fmt[p])
      invariant start <= p <= |fmt| && FlagsIn(fmt[start..]) == p - start + FlagsIn(fmt[p..])
    {
      assert fmt[p..][1..] == fmt[p + 1..];
      p := p + 1;
    }
  }

  method ScanDigits(fmt: Bytes, start: nat) returns (p: nat)
    requires start <= |fmt|
    ensures p == start + DigitsIn(fmt[start..]) <= |fmt|
  {
    p := start;
    while p < |fmt| && IsDigit(fmt[p])
      invariant start <= p <= |fmt| && DigitsIn(fmt[start..]) == p - start + DigitsIn(fmt[p..])
    {
      assert fmt[p..][1..] == fmt[p + 1..];
      p := p + 1;
    }
  }

  /** The tests on the conversion letter and its modifiers, in the order of the code. */
  method ScanLetters(fmt: Bytes, p: nat) returns (r: Conversion)
    requires p <= |fmt|
    ensures r == Letters(fmt[p..])
  {
    if p == |fmt| || fmt[p] == NUL { return CutOff; }
    if IsIntConversion(fmt[p]) { return Converts(1, IntArg); }
    if IsDoubleConversion(fmt[p]) { return Converts(1, DoubleArg); }
    var twice := p + 1 < |fmt| && fmt[p + 1] == fmt[p];
    var k := if twice then 2 else 1;
    if (fmt[p] == LETTER_H || fmt[p] == LETTER_L) && p + k < |fmt| && IsIntConversion(fmt[p + k]) {
      return Converts(k + 1, if fmt[p] == LETTER_H then IntArg else if twice then LongLongArg else LongArg);
    }
    return Invalid;
  }

  /** sdscatvprintf: a buffer is filled again, twice as large each time, until the byte
      before its last one stays free. */
  method CatPrintf(s: Bytes, text: Bytes) returns (r: Bytes)
    requires NUL !in text
    ensures r == s + text
  {
    var buflen := 1024;
    var written := Least(|text|, buflen - 1);
    while written == buflen - 1
      invariant buflen >= 1024 && written == Least(|text|, buflen - 1)
      decreases |text| + 2 - buflen
    {
      buflen := buflen * 2;
      written := Least(|text|, buflen - 1);
    }
    r := s + text[..written];
  }

  /** One directive at the cursor: the text behind the current argument, and how far the
      cursor and the arguments go. */
  method Interpolate(fmt: Bytes, c: nat, args: seq<VarArg>, a: nat, curarg: Bytes)
    returns (ok: bool, newarg: Bytes, c': nat, a': nat)
    requires c < |fmt| && a <= |args| && Fits(fmt[c..], args[a..]) && IsDirective(fmt[c..])
    ensures var step := StepAt(fmt[c..], args[a..]);
      ok == !step.Bad? && (ok ==> newarg == curarg + step.text && c' == c + step.skip && a' == a + step.used)
  {
    hide ConversionIn;
    assert fmt[c..][1..] == fmt[c + 1..];
    ok, newarg, c', a' := true, curarg, c + 2, a + 1;
    if fmt[c + 1] == LETTER_S {
      var size := StrLen(args[a].memory);
      newarg := curarg + args[a].memory[..size];
    } else if fmt[c + 1] == LETTER_B {
      newarg := curarg + args[a].data;
    } else if fmt[c + 1] == PERCENT {
      newarg, a' := curarg + [PERCENT], a;
    } else {
      var conversion := ScanConversion(fmt, c + 1);
      if !conversion.Converts? { return false, curarg, c, a; }
      if 1 + conversion.size < FORMAT_SIZE - 2 {
        newarg := CatPrintf(curarg, args[a].text);
        c' := c + 1 + conversion.size;
      }
    }
  }

  /** The scan of the template: the arguments, and the bytes their bulk strings take. */
  method Scan(fmt: Bytes, args: seq<VarArg>) returns (ok: bool, argv: seq<Bytes>, totlen: nat)
    requires Fits(fmt, args)
    ensures ok == Arguments(fmt, args).Some?
    ensures ok ==> argv == Arguments(fmt, args).value && totlen == |Bulks(argv)|
  {
    hide Pieces, Fits, Remaining, Bulk, Bulks, StepAt;
    var c: nat, a: nat := 0, 0;
    var curarg: Bytes := [];
    var touched := false;
    ok, argv, totlen := true, [], 0;
    NoBulks(argv);
    assert fmt[0..] == fmt && args[0..] == args;
    while c < |fmt|
      invariant c <= |fmt| && a <= |args| && Fits(fmt[c..], args[a..])
      invariant !touched ==> curarg == []
      invariant All(argv, touched, curarg, Pieces(fmt[c..], args[a..])) == Arguments(fmt, args)
      invariant totlen == |Bulks(argv)|
      decreases |fmt| - c
    {
      if fmt[c] != PERCENT || c + 1 == |fmt| {
        LiteralNext(fmt, c, args, a, argv, touched, curarg);
        if fmt[c] == SPACE {
          if touched {
            argv, totlen := PushArg(argv, totlen, curarg);
            curarg := [];
            touched := false;
          }
        } else {
          curarg := curarg + [fmt[c]];
          touched := true;
        }
        c := c + 1;
      } else {
        DirectiveNext(fmt, c, args, a, argv, touched, curarg);
        ok, curarg, c, a := Interpolate(fmt, c, args, a, curarg);
        if !ok { return; }
        touched := true;
      }
    }
    Ended(fmt[c..], args[a..]);
    NoMore(touched, curarg);
    if touched {
      argv, totlen := PushArg(argv, totlen, curarg);
    }
  }

  method PushArg(argv: seq<Bytes>, totlen: nat, arg: Bytes) returns (argv': seq<Bytes>, totlen': nat)
    requires totlen == |Bulks(argv)|
    ensures argv' == argv + [arg] && totlen' == |Bulks(argv')|
  {
    var len := BulkLen(|arg|);
    argv', totlen' := argv + [arg], totlen + len;
    assert argv'[..|argv|] == argv;
  }

  lemma Untouched(current: Bytes, ps: seq<Piece>)
    ensures Remaining(false, current, ps) == Tokens(ps)
  {
  }

  lemma Ended(fmt: Bytes, args: seq<VarArg>)
    requires fmt == [] && Fits(fmt, args)
    ensures Pieces(fmt, args) == Some([])
  {
  }

  // What is returned for an invalid template.
  const FORMAT_ERROR: int := -2

  /** redisvFormatCommand. */
  method FormatCommand(fmt: Bytes, args: seq<VarArg>) returns (cmd: array<Byte>, totlen: int)
    requires Fits(fmt, args)
    requires Arguments(fmt, args).Some? ==> |Wire(Arguments(fmt, args).value)| <= INT_MAX
    ensures Arguments(fmt, args).None? ==> totlen == FORMAT_ERROR
    ensures Arguments(fmt, args).Some? ==>
      && totlen >= 0 && cmd.Length == totlen + 1
      && cmd[..totlen] == Wire(Arguments(fmt, args).value) && cmd[totlen] == NUL
  {
    hide Arguments;
    var ok, argv, bulks := Scan(fmt, args);
    if !ok {
      cmd := new Byte[0];
      return cmd, FORMAT_ERROR;
    }
    WireIsBulks(argv);
    var digits := CountDigits(|argv|);
    totlen := bulks + 1 + digits + 2;
    cmd := Build(argv, totlen);
  }

  // ---- how many arguments there are is up to the template ----

  ghost predicate SameGaps(ps: seq<Piece>, qs: seq<Piece>) {
    |ps| == |qs| && forall i :: 0 <= i < |ps| ==> (ps[i].Gap? <==> qs[i].Gap?)
  }

  ghost predicate Alike(p: Option<seq<Piece>>, q: Option<seq<Piece>>) {
    if p.None? then q.None? else q.Some? && SameGaps(p.value, q.value)
  }

  /** The arguments decide nothing but the text of a directive. */
  lemma StepsAlike(fmt: Bytes, args: seq<VarArg>, others: seq<VarArg>)
    requires Fits(fmt, args) && Fits(fmt, others) && IsDirective(fmt)
    ensures var step, other := StepAt(fmt, args), StepAt(fmt, others);
      if step.Bad? then other.Bad? else other.Step? && step.skip == other.skip && step.used == other.used
  {
    hide ConversionIn, UpToNul;
  }

  lemma BehindAlike(p: Piece, q: Piece, ps: Option<seq<Piece>>, qs: Option<seq<Piece>>)
    requires (p.Gap? <==> q.Gap?) && Alike(ps, qs)
    ensures Alike(Behind(p, ps), Behind(q, qs))
  {}

  lemma {:induction false} PiecesAlike(fmt: Bytes, args: seq<VarArg>, others: seq<VarArg>)
    requires Fits(fmt, args) && Fits(fmt, others)
    ensures Alike(Pieces(fmt, args), Pieces(fmt, others))
    decreases |fmt|
  {
    if fmt != [] {
      if IsDirective(fmt) {
        hide Fits, Pieces, StepAt, SameGaps, Behind;
        StepsAlike(fmt, args, others);
        StepFits(fmt, args);
        StepFits(fmt, others);
        var step := StepAt(fmt, args);
        if !step.Bad? {
          var after, left, also := fmt[step.skip..], args[step.used..], others[step.used..];
          PiecesAlike(after, left, also);
          BehindAlike(Chunk(step.text), Chunk(StepAt(fmt, others).text), Pieces(after, left), Pieces(after, also));
        }
      } else {
        LiteralFits(fmt, args);
        LiteralFits(fmt, others);
        hide Fits, Pieces;
        PiecesAlike(fmt[1..], args, others);
        BehindAlike(LiteralPiece(fmt[0]), LiteralPiece(fmt[0]), Pieces(fmt[1..], args), Pieces(fmt[1..], others));
      }
    }
  }

  lemma LiteralFits(fmt: Bytes, args: seq<VarArg>)
    requires Fits(fmt, args) && fmt != [] && !IsDirective(fmt)
    ensures Fits(fmt[1..], args) && Pieces(fmt, args) == Behind(LiteralPiece(fmt[0]), Pieces(fmt[1..], args))
  {}

  lemma {:induction false} SameRun(ps: seq<Piece>, qs: seq<Piece>)
    requires SameGaps(ps, qs)
    ensures Run(ps) == Run(qs)
  {
    if ps != [] && ps[0].Chunk? { SameRun(ps[1..], qs[1..]); }
  }

  lemma {:induction false} SameCount(ps: seq<Piece>, qs: seq<Piece>)
    requires SameGaps(ps, qs)
    ensures |Tokens(ps)| == |Tokens(qs)|
    decreases |ps|
  {
    if ps != [] {
      SameRun(ps, qs);
      var k := if ps[0].Gap? then 1 else Run(ps);
      SameCount(ps[k..], qs[k..]);
    }
  }

  /** Whatever is interpolated, a template is as valid and makes as many arguments, so that no
      value can add an argument to a command or take one away. */
  lemma CountIsTheTemplates(fmt: Bytes, args: seq<VarArg>, others: seq<VarArg>)
    requires Fits(fmt, args) && Fits(fmt, others)
    ensures Arguments(fmt, args).Some? <==> Arguments(fmt, others).Some?
    ensures Arguments(fmt, args).Some? ==> |Arguments(fmt, args).value| == |Arguments(fmt, others).value|
  {
    PiecesAlike(fmt, args, others);
    if Pieces(fmt, args).Some? {
      ArgumentsAre(fmt, args);
      ArgumentsAre(fmt, others);
      SameCount(Pieces(fmt, args).value, Pieces(fmt, others).value);
    }
  }

  // ---- templates without literals pass any argument vector through ----

  /** "%b %b ... %b" */
  function Placeholders(n: nat): Bytes {
    if n == 0 then [] else if n == 1 then [PERCENT, LETTER_B] else [PERCENT, LETTER_B, SPACE] + Placeholders(n - 1)
  }

  ghost function Binaries(argv: seq<Bytes>): (args: seq<VarArg>)
    ensures |args| == |argv| && forall i :: 0 <= i < |argv| ==> args[i] == Binary(argv[i])
  {
    seq(|argv|, i requires 0 <= i < |argv| => Binary(argv[i]))
  }

  /** Interpolating any byte strings, empty ones and ones with spaces included, makes
      the command of exactly those arguments. */
  lemma {:induction false} PlaceholdersPass(argv: seq<Bytes>)
    ensures Fits(Placeholders(|argv|), Binaries(argv))
    ensures Arguments(Placeholders(|argv|), Binaries(argv)) == Some(argv)
  {
    PlaceholderPieces(argv);
    ArgumentsAre(Placeholders(|argv|), Binaries(argv));
  }

  /** The template and its pieces for one more argument in front. */
  lemma PlaceholderFirst(n: nat, args: seq<VarArg>)
    requires args != [] && args[0].Binary? && Fits(Placeholders(n), args[1..]) && Pieces(Placeholders(n), args[1..]).Some?
    ensures Fits(Placeholders(n + 1), args)
    ensures var others := Pieces(Placeholders(n), args[1..]).value;
      Pieces(Placeholders(n + 1), args) == Some([Chunk(args[0].data)] + if n == 0 then [] else [Gap] + others)
  {
    hide Fits, Pieces, Placeholders;
    PlaceholdersNext(n);
    var after := Placeholders(n + 1)[2..];
    if n == 0 {
      NothingFits(after, args[1..]);
    } else {
      SpaceFits(after, args[1..]);
    }
    BinaryFits(Placeholders(n + 1), args);
  }

  lemma PlaceholdersNext(n: nat)
    ensures var fmt := Placeholders(n + 1);
      && |fmt| >= 2 && fmt[0] == PERCENT && fmt[1] == LETTER_B
      && if n == 0 then fmt[2..] == [] else |fmt| > 2 && fmt[2] == SPACE && fmt[2..][1..] == Placeholders(n)
  {
    var front, rest: Bytes := [PERCENT, LETTER_B, SPACE], Placeholders(n);
    assert (front + rest)[2..][1..] == rest;
  }

  lemma NothingFits(fmt: Bytes, args: seq<VarArg>)
    requires fmt == []
    ensures Fits(fmt, args) && Pieces(fmt, args) == Some([])
  {}

  lemma SpaceFits(fmt: Bytes, args: seq<VarArg>)
    requires fmt != [] && fmt[0] == SPACE && Fits(fmt[1..], args)
    ensures Fits(fmt, args) && Pieces(fmt, args) == Behind(Gap, Pieces(fmt[1..], args))
  {}

  lemma BinaryFits(fmt: Bytes, args: seq<VarArg>)
    requires |fmt| >= 2 && fmt[0] == PERCENT && fmt[1] == LETTER_B
    requires args != [] && args[0].Binary? && Fits(fmt[2..], args[1..])
    ensures Fits(fmt, args) && Pieces(fmt, args) == Behind(Chunk(args[0].data), Pieces(fmt[2..], args[1..]))
  {}

  lemma FirstToken(arg: Bytes, rest: seq<Bytes>, others: seq<Piece>)
    requires Tokens(others) == rest
    ensures Tokens([Chunk(arg)] + if rest == [] then [] else [Gap] + others) == [arg] + rest
  {
    hide Tokens, Remaining;
    var ps := if rest == [] then [] else [Gap] + others;
    if rest == [] { NoMore(true, [] + arg); } else { GapNext(true, [] + arg, others); }
    ChunkNext(false, [], arg, ps);
    Untouched([], [Chunk(arg)] + ps);
    assert [] + arg == arg;
  }

  lemma {:induction false} PlaceholderPieces(argv: seq<Bytes>)
    ensures Fits(Placeholders(|argv|), Binaries(argv)) && Pieces(Placeholders(|argv|), Binaries(argv)).Some?
    ensures Tokens(Pieces(Placeholders(|argv|), Binaries(argv)).value) == argv
  {
    if argv != [] {
      hide Fits, Pieces, Placeholders, Tokens;
      var arg, rest := argv[0], argv[1..];
      PlaceholderPieces(rest);
      assert Binaries(argv)[1..] == Binaries(rest);
      PlaceholderFirst(|rest|, Binaries(argv));
      FirstToken(arg, rest, Pieces(Placeholders(|rest|), Binaries(rest)).value);
      assert [arg] + rest == argv;
    }
  }
}
