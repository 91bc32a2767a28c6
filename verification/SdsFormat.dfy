/** The fast formatter of sds.c and the command builder of hiredis.c that uses it.
    It prints argument lengths with %u, an unsigned int: the command is the one
    `Commands` builds exactly when every length fits. */
module SdsFormat {
  import opened Bytes
  import opened Numbers
  import opened Sds
  import opened Commands

  const LOWER_I: Byte := 105
  const UPPER_I: Byte := 73
  const LOWER_U: Byte := 117
  const UPPER_U: Byte := 85
  const LOWER_S: Byte := 115
  const UPPER_S: Byte := 83
  const UINT_RANGE: nat := 0x1_0000_0000

  datatype FmtArg = Text(text: Bytes) | Signed(v: int) | Unsigned(u: nat)

  /** What a directive reads must be what was passed for it. */
  predicate Accepts(directive: Byte, arg: FmtArg) {
    if directive == LOWER_S || directive == UPPER_S then arg.Text?
    else if directive == LOWER_I || directive == UPPER_I then arg.Signed? && IsInt64(arg.v)
    else arg.Unsigned? && arg.u < TWO_64
  }

  predicate TakesArg(directive: Byte) {
    directive in {LOWER_S, UPPER_S, LOWER_I, UPPER_I, LOWER_U, UPPER_U}
  }

  /** %s is a C string, %S has its own length; %u reads the low 32 bits of what was passed. */
  ghost function Printed(directive: Byte, arg: FmtArg): Bytes {
    match arg
    case Text(t) => if directive == LOWER_S then UpToNul(t) else t
    case Signed(v) => DecInt(v)
    case Unsigned(u) => Dec(if directive == LOWER_U then u % UINT_RANGE else u)
  }

  /** The format ends at its first NUL, which must not be the second half of a directive. */
  ghost predicate WellFormed(fmt: Bytes, args: seq<FmtArg>) {
    if fmt == [] || fmt[0] == NUL then true
    else if fmt[0] != PERCENT then WellFormed(fmt[1..], args)
    else
      && |fmt| >= 2 && fmt[1] != NUL
      && if TakesArg(fmt[1]) then args != [] && Accepts(fmt[1], args[0]) && WellFormed(fmt[2..], args[1..])
         else WellFormed(fmt[2..], args)
  }

  ghost function Expand(fmt: Bytes, args: seq<FmtArg>): Bytes
    requires WellFormed(fmt, args)
  {
    if fmt == [] || fmt[0] == NUL then []
    else if fmt[0] != PERCENT then [fmt[0]] + Expand(fmt[1..], args)
    else if TakesArg(fmt[1]) then Printed(fmt[1], args[0]) + Expand(fmt[2..], args[1..])
    else [fmt[1]] + Expand(fmt[2..], args)
  }

  /** The text of one directive's argument, printed by way of the 21-byte buffer. */
  method PrintArg(directive: Byte, arg: FmtArg) returns (t: Bytes)
    requires TakesArg(directive) && Accepts(directive, arg)
    ensures t == Printed(directive, arg)
  {
    match arg
    case Text(text) =>
      if directive == LOWER_S {
        var l := StrLen(text);
        t := text[..l];
      } else {
        t := text;
      }
    case Signed(v) =>
      var buf := new Byte[LLSTR_SIZE](_ => NUL);
      var l := LongLongToString(buf, v);
      t := buf[..l];
    case Unsigned(u) =>
      var buf := new Byte[LLSTR_SIZE](_ => NUL);
      var l := UnsignedToString(buf, if directive == LOWER_U then u % UINT_RANGE else u);
      t := buf[..l];
  }

  /** The literal or directive at the front of a format, and what it adds. */
  lemma NextPiece(fmt: Bytes, f: nat, args: seq<FmtArg>, a: nat)
    requires f < |fmt| && a <= |args| && fmt[f] != NUL && WellFormed(fmt[f..], args[a..])
    ensures fmt[f] != PERCENT ==>
      && WellFormed(fmt[f + 1..], args[a..])
      && Expand(fmt[f..], args[a..]) == [fmt[f]] + Expand(fmt[f + 1..], args[a..])
    ensures fmt[f] == PERCENT ==> f + 1 < |fmt|
    ensures fmt[f] == PERCENT && !TakesArg(fmt[f + 1]) ==>
      && WellFormed(fmt[f + 2..], args[a..])
      && Expand(fmt[f..], args[a..]) == [fmt[f + 1]] + Expand(fmt[f + 2..], args[a..])
    ensures fmt[f] == PERCENT && TakesArg(fmt[f + 1]) ==>
      && a < |args| && Accepts(fmt[f + 1], args[a]) && WellFormed(fmt[f + 2..], args[a + 1..])
      && Expand(fmt[f..], args[a..]) == Printed(fmt[f + 1], args[a]) + Expand(fmt[f + 2..], args[a + 1..])
  {
    assert fmt[f..][1..] == fmt[f + 1..];
    if fmt[f] == PERCENT {
      assert fmt[f..][2..] == fmt[f + 2..];
      if TakesArg(fmt[f + 1]) { assert args[a..][1..] == args[a + 1..]; }
    }
  }

  lemma NothingLeft(fmt: Bytes, args: seq<FmtArg>)
    requires (fmt == [] || fmt[0] == NUL) && WellFormed(fmt, args)
    ensures Expand(fmt, args) == []
  {
  }

  // ---- formats as their users write them ----

  /** A literal byte, or a directive with what is passed for it: %s with the memory of a C
      string, %S, %i or %I, %u, %U, or any other byte behind a percent sign. */
  datatype Piece =
    | Plain(b: Byte)
    | CStr(text: Bytes, after: Bytes)
    | Str(data: Bytes)
    | Int(wide: bool, v: int)
    | Word(passed: nat)
    | LongWord(u: nat)
    | Other(b: Byte)

  predicate PieceOk(p: Piece) {
    match p
    case Plain(b) => b != 37 && b != 0
    case CStr(text, _) => 0 !in text
    case Str(_) => true
    case Int(_, v) => -0x8000_0000_0000_0000 <= v < 0x8000_0000_0000_0000
    case Word(passed) => passed < 0x1_0000_0000_0000_0000
    case LongWord(u) => u < 0x1_0000_0000_0000_0000
    case Other(b) => b !in {0, 115, 83, 105, 73, 117, 85}
  }

  function Written(p: Piece): Bytes {
    match p
    case Plain(b) => [b]
    case CStr(_, _) => [37, 115]
    case Str(_) => [37, 83]
    case Int(wide, _) => if wide then [37, 73] else [37, 105]
    case Word(_) => [37, 117]
    case LongWord(_) => [37, 85]
    case Other(b) => [37, b]
  }

  function Passed(p: Piece): seq<FmtArg> {
    match p
    case Plain(_) => []
    case CStr(text, after) => [Text(text + [0] + after)]
    case Str(data) => [Text(data)]
    case Int(_, v) => [Signed(v)]
    case Word(passed) => [Unsigned(passed)]
    case LongWord(u) => [Unsigned(u)]
    case Other(_) => []
  }

  /** Of what is passed for %u the low 32 bits are printed. */
  function Meant(p: Piece): Bytes {
    match p
    case Plain(b) => [b]
    case CStr(text, _) => text
    case Str(data) => data
    case Int(_, v) => DecInt(v)
    case Word(passed) => Dec(passed % 0x1_0000_0000)
    case LongWord(u) => Dec(u)
    case Other(b) => [b]
  }

  function Format(pieces: seq<Piece>): Bytes {
    if pieces == [] then [] else Written(pieces[0]) + Format(pieces[1..])
  }

  function Values(pieces: seq<Piece>): seq<FmtArg> {
    if pieces == [] then [] else Passed(pieces[0]) + Values(pieces[1..])
  }

  function Meaning(pieces: seq<Piece>): Bytes {
    if pieces == [] then [] else Meant(pieces[0]) + Meaning(pieces[1..])
  }

  lemma PieceExpands(p: Piece, fmt: Bytes, args: seq<FmtArg>)
    requires PieceOk(p) && WellFormed(fmt, args)
    ensures WellFormed(Written(p) + fmt, Passed(p) + args)
    ensures Expand(Written(p) + fmt, Passed(p) + args) == Meant(p) + Expand(fmt, args)
  {
    hide Dec, DecInt;
    var all, given := Written(p) + fmt, Passed(p) + args;
    assert all[|Written(p)|..] == fmt && given[|Passed(p)|..] == args;
    if p.CStr? { Terminated(p.text, p.after); }
  }

  /** A format expands to what its pieces stand for, in order, whatever the memory holds
      behind its terminator. */
  lemma {:induction false} FormatExpands(pieces: seq<Piece>, after: Bytes, unused: seq<FmtArg>)
    requires forall i :: 0 <= i < |pieces| ==> PieceOk(pieces[i])
    ensures WellFormed(Format(pieces) + ([0] + after), Values(pieces) + unused)
    ensures Expand(Format(pieces) + ([0] + after), Values(pieces) + unused) == Meaning(pieces)
    decreases |pieces|
  {
    hide WellFormed, Expand, PieceOk, Written, Passed, Meant;
    var tail := [0] + after;
    if pieces == [] {
      EndsHere(after, unused);
      assert [] + tail == tail && [] + unused == unused;
    } else {
      var p, rest := pieces[0], pieces[1..];
      FormatExpands(rest, after, unused);
      PieceExpands(p, Format(rest) + tail, Values(rest) + unused);
      Regroup(Written(p), Format(rest), tail);
      Regroup(Passed(p), Values(rest), unused);
    }
  }

  lemma EndsHere(after: Bytes, unused: seq<FmtArg>)
    ensures WellFormed([0] + after, unused) && Expand([0] + after, unused) == []
  {}

  /** What an int holds after it is given this value. */
  function ToInt(n: int): int {
    (n + 0x8000_0000) % UINT_RANGE - 0x8000_0000
  }

  /** One piece is stored at the int position `i`, which is the end of the string: there is
      room for a byte at least, and for the whole piece. Nothing comes back when the new
      position is not the new end. */
  method Store(s: SdsString, i: int, t: Bytes) returns (r: Option<SdsString>, i': int)
    requires i == |s.bytes| <= INT_MAX
    ensures r.Some? <==> |s.bytes| + |t| <= INT_MAX
    ensures r.Some? ==> r.value.bytes == s.bytes + t && i' == |r.value.bytes| && (s.Valid() ==> r.value.Valid())
  {
    var d := s;
    if d.Avail() == 0 { d := MakeRoomFor(d, 1); }
    if d.Avail() < |t| { d := MakeRoomFor(d, |t|); }
    d := d.(bytes := d.bytes + t);
    i' := ToInt(i + |t|);
    r := if i' == |d.bytes| then Some(d) else None;
  }

  /** sdscatfmt. The next byte goes to a position that is kept in an int, and nothing comes
      back when that int stops being the end of the string: from there on every store, the
      terminator included, goes somewhere else. */
  method CatFmt(s: SdsString, fmt: Bytes, args: seq<FmtArg>) returns (r: Option<SdsString>)
    requires WellFormed(fmt, args)
    ensures r.Some? <==> |s.bytes| + |Expand(fmt, args)| <= INT_MAX
    ensures r.Some? ==> r.value.bytes == s.bytes + Expand(fmt, args) && (s.Valid() ==> r.value.Valid())
  {
    hide Expand, WellFormed, Printed, SdsString.Valid;
    var d := s;
    var i := ToInt(|s.bytes|);
    if i != |s.bytes| { return None; }
    var f, a := 0, 0;
    assert fmt[0..] == fmt && args[0..] == args;
    ghost var whole := s.bytes + Expand(fmt, args);
    while f < |fmt| && fmt[f] != NUL
      invariant f <= |fmt| && a <= |args| && WellFormed(fmt[f..], args[a..])
      invariant d.bytes + Expand(fmt[f..], args[a..]) == whole
      invariant i == |d.bytes| <= INT_MAX
      invariant s.Valid() ==> d.Valid()
    {
      NextPiece(fmt, f, args, a);
      ghost var sofar := d.bytes;
      var t: Bytes;
      if fmt[f] == PERCENT {
        f := f + 1;
        if TakesArg(fmt[f]) {
          t := PrintArg(fmt[f], args[a]);
          a := a + 1;
        } else {
          t := [fmt[f]];
        }
      } else {
        t := [fmt[f]];
      }
      f := f + 1;
      assert sofar + (t + Expand(fmt[f..], args[a..])) == (sofar + t) + Expand(fmt[f..], args[a..]);
      var next: Option<SdsString>;
      next, i := Store(d, i, t);
      if next.None? { return None; }
      d := next.value;
    }
    NothingLeft(fmt[f..], args[a..]);
    r := Some(d);
  }

  // ---- redisFormatSdsCommandArgv ----

  const HEADER_FMT: Bytes := [STAR, PERCENT, LOWER_I, CR, LF]
  const BULK_FMT: Bytes := [DOLLAR, PERCENT, LOWER_U, CR, LF]

  lemma {:induction false} Literal(fmt: Bytes)
    requires PERCENT !in fmt && NUL !in fmt
    ensures WellFormed(fmt, []) && Expand(fmt, []) == fmt
  {
    if fmt != [] { Literal(fmt[1..]); }
  }

  /** A format of one byte, one directive and a line end. */
  lemma LineText(fmt: Bytes, arg: FmtArg)
    requires |fmt| == 5 && fmt[0] != PERCENT && fmt[0] != NUL && fmt[1] == PERCENT && TakesArg(fmt[2]) && fmt[3..] == CRLF
    requires Accepts(fmt[2], arg)
    ensures WellFormed(fmt, [arg]) && Expand(fmt, [arg]) == [fmt[0]] + (Printed(fmt[2], arg) + CRLF)
  {
    hide Dec;
    Literal(CRLF);
    assert fmt[1..][2..] == CRLF && [arg][1..] == [];
    assert Expand(fmt[1..], [arg]) == Printed(fmt[2], arg) + CRLF;
  }

  lemma LineFormats(n: nat)
    requires n < TWO_64
    ensures n <= INT_MAX ==> WellFormed(HEADER_FMT, [Signed(n)]) && Expand(HEADER_FMT, [Signed(n)]) == NumberLineOf(STAR, n)
    ensures WellFormed(BULK_FMT, [Unsigned(n)])
    ensures Expand(BULK_FMT, [Unsigned(n)]) == NumberLineOf(DOLLAR, n % UINT_RANGE)
  {
    hide Dec, Expand, WellFormed;
    if n <= INT_MAX { LineText(HEADER_FMT, Signed(n)); }
    LineText(BULK_FMT, Unsigned(n));
  }

  ghost function SdsBulk(arg: Bytes): Bytes { NumberLineOf(DOLLAR, |arg| % UINT_RANGE) + arg + CRLF }

  ghost function SdsBulks(argv: seq<Bytes>): Bytes {
    if argv == [] then [] else SdsBulks(argv[..|argv| - 1]) + SdsBulk(argv[|argv| - 1])
  }

  ghost function SdsWire(argv: seq<Bytes>): Bytes { NumberLineOf(STAR, |argv|) + SdsBulks(argv) }

  /** How far the positions go that the formatter keeps in an int: the last of them is the
      end of the last length line. Only the last argument may lie behind it. */
  ghost predicate PositionsFit(argv: seq<Bytes>) {
    LastPosition(argv) <= INT_MAX
  }

  ghost function LastPosition(argv: seq<Bytes>): nat {
    if argv == [] then |NumberLineOf(STAR, 0)|
    else
      var n := |argv| - 1;
      |NumberLineOf(STAR, |argv|)| + |SdsBulks(argv[..n])| + |NumberLineOf(DOLLAR, |argv[n]| % UINT_RANGE)|
  }

  method CatBulk(cmd: SdsString, arg: Bytes) returns (r: Option<SdsString>)
    requires |arg| < TWO_64
    ensures r.Some? <==> |cmd.bytes| + |NumberLineOf(DOLLAR, |arg| % UINT_RANGE)| <= INT_MAX
    ensures r.Some? ==> r.value.bytes == cmd.bytes + SdsBulk(arg)
  {
    hide Expand, WellFormed, NumberLineOf;
    LineFormats(|arg|);
    r := CatFmt(cmd, BULK_FMT, [Unsigned(|arg|)]);
    if r.Some? { r := Some(CatLen(CatLen(r.value, arg), CRLF)); }
  }

  /** What the builder comes to: a store to a wrong position, the failed assertion on the
      length, or the command with the int that is returned. */
  datatype Built = Strays | Aborts | Returns(cmd: SdsString, totlen: int)

  method FormatSdsCommandArgv(argv: seq<Bytes>) returns (r: Built)
    requires |argv| <= INT_MAX && |Wire(argv)| < TWO_64
    ensures r.Strays? <==> !PositionsFit(argv)
    ensures r.Aborts? <==> PositionsFit(argv) && |SdsWire(argv)| != |Wire(argv)|
    ensures r.Returns? ==> r.cmd.bytes == SdsWire(argv) && r.totlen == ToInt(|Wire(argv)|)
    ensures r.Returns? && r.cmd.bytes == Wire(argv) && r.totlen == |Wire(argv)| <==> |Wire(argv)| <= INT_MAX
  {
    hide Expand, WellFormed, NumberLineOf, SdsBulk, SdsBulks, PositionsFit;
    ArgumentsFit(argv);
    CountLine(argv);
    RightIff(argv, ToInt(|Wire(argv)|));
    var totlen := CommandSize(argv);
    // The whole command is allocated at once, so that no append moves it.
    var room := MakeRoomFor(Empty(), totlen);
    LineFormats(|argv|);
    var head := CatFmt(room, HEADER_FMT, [Signed(|argv|)]);
    var cmd := head.value;
    for j := 0 to |argv|
      invariant cmd.bytes == NumberLineOf(STAR, |argv|) + SdsBulks(argv[..j])
      invariant j == |argv| ==> PositionsFit(argv)
    {
      NextSdsBulk(argv, j);
      var next := CatBulk(cmd, argv[j]);
      if next.None? { return Strays; }
      cmd := next.value;
    }
    assert argv[..|argv|] == argv;
    if |cmd.bytes| != totlen { return Aborts; }
    r := Returns(cmd, ToInt(totlen));
  }

  /** The empty buffer takes the count line, whatever the count. */
  lemma CountLine(argv: seq<Bytes>)
    requires |argv| <= INT_MAX
    ensures |NumberLineOf(STAR, |argv|)| <= 13 && SdsBulks(argv[..0]) == [] && (argv == [] ==> PositionsFit(argv))
  {
    LongerDec(|argv|, 9_999_999_999);
    TenDigits(9_999_999_999);
  }

  /** One argument more: its length line is where the positions must still fit. */
  lemma NextSdsBulk(argv: seq<Bytes>, j: nat)
    requires j < |argv|
    ensures SdsBulks(argv[..j + 1]) == SdsBulks(argv[..j]) + SdsBulk(argv[j])
    ensures var here := |NumberLineOf(STAR, |argv|)| + |SdsBulks(argv[..j])| + |NumberLineOf(DOLLAR, |argv[j]| % UINT_RANGE)|;
      (here <= INT_MAX && j + 1 == |argv| ==> PositionsFit(argv)) && (here > INT_MAX ==> !PositionsFit(argv))
  {
    hide NumberLineOf;
    assert argv[..j + 1][..j] == argv[..j];
    var n := |argv| - 1;
    if j < n { SdsBulksGrow(argv, j + 1, n); }
  }

  lemma {:induction false} SdsBulksGrow(argv: seq<Bytes>, i: nat, j: nat)
    requires i <= j <= |argv|
    ensures |SdsBulks(argv[..i])| <= |SdsBulks(argv[..j])|
  {
    hide SdsBulk;
    if i < j {
      SdsBulksGrow(argv, i, j - 1);
      assert argv[..j][..j - 1] == argv[..j - 1];
    }
  }

  lemma ArgumentsFit(argv: seq<Bytes>)
    ensures forall j :: 0 <= j < |argv| ==> |argv[j]| < |Wire(argv)|
  {
    WireIsBulks(argv);
    forall j | 0 <= j < |argv| ensures |argv[j]| < |Wire(argv)| { NextBulk(argv, j); }
  }

  // ---- when the assertion holds ----

  /** The digits of a length survive the cast in number, if not in value. */
  predicate DigitsKept(n: nat) {
    |Dec(n % UINT_RANGE)| == |Dec(n)|
  }

  lemma {:induction false} LongerDec(m: nat, n: nat)
    requires m <= n
    ensures |Dec(m)| <= |Dec(n)|
    decreases n
  {
    if n >= 10 && m >= 10 { LongerDec(m / 10, n / 10); }
  }

  lemma {:induction false} BulksLengths(argv: seq<Bytes>)
    ensures |SdsBulks(argv)| <= |Bulks(argv)|
    ensures |SdsBulks(argv)| == |Bulks(argv)| <==> forall j :: 0 <= j < |argv| ==> DigitsKept(|argv[j]|)
  {
    hide Dec;
    if argv != [] {
      var front, n := argv[..|argv| - 1], |argv[|argv| - 1]|;
      BulksLengths(front);
      LongerDec(n % UINT_RANGE, n);
      assert forall j :: 0 <= j < |front| ==> front[j] == argv[j];
    }
  }

  /** The encoding with cast lengths is as long as the one with plain lengths if and only if
      the cast leaves every length as many digits as it has. */
  lemma LengthsAgreeIff(argv: seq<Bytes>)
    ensures |SdsWire(argv)| == |Wire(argv)| <==> forall j :: 0 <= j < |argv| ==> DigitsKept(|argv[j]|)
  {
    WireIsBulks(argv);
    BulksLengths(argv);
  }

  /** When the positions fit, the last argument alone decides whether the assertion holds and
      whether the bytes are right. */
  lemma LastDecides(argv: seq<Bytes>)
    requires argv != [] && PositionsFit(argv) && |argv[|argv| - 1]| < TWO_64
    ensures forall j :: 0 <= j < |argv| - 1 ==> |argv[j]| < INT_MAX
    ensures |SdsWire(argv)| == |Wire(argv)| <==> DigitsKept(|argv[|argv| - 1]|)
    ensures SdsWire(argv) == Wire(argv) <==> |argv[|argv| - 1]| < UINT_RANGE
  {
    hide NumberLineOf, SdsBulk, SdsBulks, Dec;
    var n := |argv| - 1;
    forall j | 0 <= j < n ensures |argv[j]| < INT_MAX {
      NextSdsBulk(argv, j);
      SdsBulksGrow(argv, j + 1, n);
      SdsBulkHolds(argv[j]);
    }
    forall j | 0 <= j < n ensures DigitsKept(|argv[j]|) { assert |argv[j]| % UINT_RANGE == |argv[j]|; }
    LengthsAgreeIff(argv);
    EncodingsAgreeIff(argv);
  }

  lemma SdsBulkHolds(arg: Bytes)
    ensures |SdsBulk(arg)| > |arg|
  {}

  /** The whole of it: the builder returns the command and its length if and only if an int
      can hold that length. */
  lemma RightIff(argv: seq<Bytes>, totlen: int)
    requires |argv| <= INT_MAX && |Wire(argv)| < TWO_64 && totlen == ToInt(|Wire(argv)|)
    ensures PositionsFit(argv) && SdsWire(argv) == Wire(argv) && totlen == |Wire(argv)| <==> |Wire(argv)| <= INT_MAX
  {
    if |Wire(argv)| <= INT_MAX {
      ArgumentsFit(argv);
      EncodingsAgreeIff(argv);
      LastInside(argv);
    }
  }

  lemma LastInside(argv: seq<Bytes>)
    ensures LastPosition(argv) <= |SdsWire(argv)|
  {
    hide NumberLineOf;
  }

  /** A single argument of 2^32 bytes makes the builder abort. A single one of 2^33 - 1 bytes
      does not, and its length is written wrong. */
  lemma CastLengths(arg: Bytes)
    ensures |arg| == UINT_RANGE ==> PositionsFit([arg]) && |SdsWire([arg])| != |Wire([arg])|
    ensures |arg| == 2 * UINT_RANGE - 1 ==>
      PositionsFit([arg]) && |SdsWire([arg])| == |Wire([arg])| && SdsWire([arg]) != Wire([arg])
  {
    if |arg| == UINT_RANGE || |arg| == 2 * UINT_RANGE - 1 {
      hide Dec, SdsWire, Wire;
      CastDigits();
      OneArgument(arg);
      LastDecides([arg]);
    }
  }

  lemma CastDigits()
    ensures !DigitsKept(UINT_RANGE) && DigitsKept(2 * UINT_RANGE - 1)
  {
    TenDigits(UINT_RANGE - 1);
    TenDigits(2 * UINT_RANGE - 1);
    TenDigits(UINT_RANGE);
    assert (2 * UINT_RANGE - 1) % UINT_RANGE == UINT_RANGE - 1 && UINT_RANGE % UINT_RANGE == 0;
  }

  lemma OneArgument(arg: Bytes)
    ensures PositionsFit([arg])
  {
    hide Dec;
    assert [arg][..0] == [];
    CountLine([arg]);
    LongerDec(|arg| % UINT_RANGE, 9_999_999_999);
    TenDigits(9_999_999_999);
  }

  lemma TenDigits(n: nat)
    requires 1_000_000_000 <= n < 10_000_000_000
    ensures |Dec(n)| == 10
  {
    FourDigits(n);
    FourDigits(n / 10000);
  }

  /** Both builders, for totals that an int can hold: the same bytes and the same length. */
  method BuildBoth(argv: seq<Bytes>) returns (cmd: array<Byte>, totlen: nat, r: Built)
    requires |Wire(argv)| <= INT_MAX
    ensures r.Returns? && r.totlen == totlen && cmd.Length == totlen + 1
    ensures cmd[..totlen] == r.cmd.bytes == Wire(argv)
  {
    CountFits(argv);
    WireIsBulks(argv);
    cmd, totlen := FormatCommandArgv(argv);
    r := FormatSdsCommandArgv(argv);
  }

  // ---- the two encodings agree exactly below 2^32 ----

  lemma {:induction false} SdsBulksFront(argv: seq<Bytes>)
    requires argv != []
    ensures SdsBulks(argv) == SdsBulk(argv[0]) + SdsBulks(argv[1..])
  {
    hide SdsBulk;
    var front, last := argv[..|argv| - 1], argv[|argv| - 1];
    if front != [] {
      SdsBulksFront(front);
      assert argv[1..][..|argv| - 2] == front[1..];
    } else {
      assert argv[1..] == [] && SdsBulks(front) == [];
    }
  }

  /** A length line determines its length. */
  lemma NumberLineDetermines(m: nat, n: nat, x: Bytes, y: Bytes)
    requires m < TWO_64 && n < TWO_64 && NumberLineOf(DOLLAR, m) + x == NumberLineOf(DOLLAR, n) + y
    ensures m == n
  {
    NumberLineOfLine(m, x);
    NumberLineOfLine(n, y);
    ValueOfDec(m);
    ValueOfDec(n);
  }

  lemma NumberLineOfLine(n: nat, x: Bytes)
    ensures var s := (NumberLineOf(DOLLAR, n) + x)[1..];
      Resp.FindCRLF(s) == Some(|Dec(n)|) && s[..|Dec(n)|] == Dec(n)
  {
    assert (NumberLineOf(DOLLAR, n) + x)[1..] == Dec(n) + CRLF + x;
    Resp.NumberIsLine(n);
    Resp.LineEnds(Dec(n), x);
  }

  /** The two encodings are the same bytes if and only if every length is an unsigned int. */
  lemma {:induction false} EncodingsAgreeIff(argv: seq<Bytes>)
    requires forall j :: 0 <= j < |argv| ==> |argv[j]| < TWO_64
    ensures SdsWire(argv) == Wire(argv) <==> forall j :: 0 <= j < |argv| ==> |argv[j]| < UINT_RANGE
  {
    WireIsBulks(argv);
    BulksAgreeIff(argv);
    var h := NumberLineOf(STAR, |argv|);
    assert (h + SdsBulks(argv))[|h|..] == SdsBulks(argv) && (h + Bulks(argv))[|h|..] == Bulks(argv);
  }

  lemma {:induction false} BulksAgreeIff(argv: seq<Bytes>)
    requires forall j :: 0 <= j < |argv| ==> |argv[j]| < TWO_64
    ensures SdsBulks(argv) == Bulks(argv) <==> forall j :: 0 <= j < |argv| ==> |argv[j]| < UINT_RANGE
  {
    if argv != [] {
      hide NumberLineOf, Bulk, SdsBulk, Bulks, SdsBulks;
      var arg, rest := argv[0], argv[1..];
      BulksFront(argv);
      SdsBulksFront(argv);
      BulksAgreeIff(rest);
      assert (forall j :: 0 <= j < |argv| ==> |argv[j]| < UINT_RANGE)
        <==> |arg| < UINT_RANGE && forall j :: 0 <= j < |rest| ==> |rest[j]| < UINT_RANGE by {
        assert forall j :: 0 < j < |argv| ==> argv[j] == rest[j - 1];
        assert forall j :: 0 <= j < |rest| ==> rest[j] == argv[j + 1];
      }
      if SdsBulk(arg) + SdsBulks(rest) == Bulk(arg) + Bulks(rest) { FrontAgrees(arg, SdsBulks(rest), Bulks(rest)); }
      if |arg| < UINT_RANGE { SmallBulk(arg); }
    } else {
      assert Bulks(argv) == [] && SdsBulks(argv) == [];
    }
  }

  lemma SmallBulk(arg: Bytes)
    requires |arg| < UINT_RANGE
    ensures SdsBulk(arg) == Bulk(arg)
  {
  }

  lemma FrontAgrees(arg: Bytes, x: Bytes, y: Bytes)
    requires |arg| < TWO_64 && SdsBulk(arg) + x == Bulk(arg) + y
    ensures |arg| < UINT_RANGE && x == y
  {
    hide Dec, NumberLineOf;
    assert SdsBulk(arg) + x == NumberLineOf(DOLLAR, |arg| % UINT_RANGE) + (arg + CRLF + x);
    assert Bulk(arg) + y == NumberLineOf(DOLLAR, |arg|) + (arg + CRLF + y);
    NumberLineDetermines(|arg| % UINT_RANGE, |arg|, arg + CRLF + x, arg + CRLF + y);
    var k := |Bulk(arg)|;
    assert (Bulk(arg) + x)[k..] == x && (Bulk(arg) + y)[k..] == y;
  }
}
