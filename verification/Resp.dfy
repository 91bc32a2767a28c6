/** The reply grammar of the Redis serialization protocol (RESP version 2), read by
    recursive descent over a complete byte string: the reference that the
    resumable reader is proved against. It fixes the same leniencies and limits
    as the reader, but has no stack, no cursor and no buffer. */
module Resp {
  import opened Bytes
  import opened Numbers

  datatype Reply =
    | Status(text: Bytes)
    | Error(text: Bytes)
    | Str(text: Bytes)
    | Integer(value: int)
    | Nil
    | Array(elems: seq<Reply>)

  /** The type byte of an item. */
  datatype ItemType = TStatus | TError | TInteger | TString | TArray

  datatype ProtocolError =
    | BadTypeByte(b: Byte)
    | BadInteger
    | BadBulkLength
    | BulkLengthOutOfRange
    | BadMultiBulkLength
    | MultiBulkLengthOutOfRange
    | TooDeep

  /** Reading either succeeds leaving `rest`, needs more bytes, or fails for good. */
  datatype Outcome<+T> = Done(value: T, rest: Bytes) | More | Fail(error: ProtocolError)

  // Stack slots of the reader: array items at levels 0 to 7 can be opened.
  const MAX_LEVEL: nat := 8

  function TypeOf(b: Byte): Option<ItemType> {
    if b == MINUS then Some(TError)
    else if b == PLUS then Some(TStatus)
    else if b == COLON then Some(TInteger)
    else if b == DOLLAR then Some(TString)
    else if b == STAR then Some(TArray)
    else None
  }

  predicate CrlfAt(s: Bytes, i: nat) {
    i + 2 <= |s| && s[i] == CR && s[i + 1] == LF
  }

  /** Position of the first CR LF. */
  function FindCRLF(s: Bytes): (r: Option<nat>)
    ensures r.Some? ==> CrlfAt(s, r.value)
    ensures forall i: nat {:trigger CrlfAt(s, i)} :: CrlfAt(s, i) ==> r.Some? && r.value <= i
  {
    if |s| < 2 then None
    else if CrlfAt(s, 0) then Some(0)
    else
      assert forall i: nat {:trigger CrlfAt(s, i)} :: CrlfAt(s, i) ==> i > 0 && CrlfAt(s[1..], i - 1);
      match FindCRLF(s[1..]) case None => None case Some(k) => Some(k + 1)
  }

  /** Success uses up at least one byte. */
  ghost predicate Consumes<T>(s: Bytes, r: Outcome<T>) {
    r.Done? ==> |r.rest| < |s|
  }

  ghost function ParseReply(s: Bytes, level: nat): (r: Outcome<Reply>)
    requires level <= MAX_LEVEL
    ensures Consumes(s, r)
    decreases |s|, 0
  {
    if s == [] then More else
    match TypeOf(s[0])
    case None => Fail(BadTypeByte(s[0]))
    case Some(t) => ParseTyped(t, s[1..], level)
  }

  /** An item whose type byte has been read. */
  ghost function ParseTyped(t: ItemType, s: Bytes, level: nat): (r: Outcome<Reply>)
    requires level <= MAX_LEVEL
    ensures Consumes(s, r)
    decreases |s|, 1
  {
    match t
    case TString => ParseBulk(s)
    case TArray => if level == MAX_LEVEL then Fail(TooDeep) else ParseArray(s, level)
    case _ => ParseLine(t, s)
  }

  /** The count of an array, then its items, one level down. */
  ghost function ParseArray(s: Bytes, level: nat): (r: Outcome<Reply>)
    requires level < MAX_LEVEL
    ensures Consumes(s, r)
    decreases |s|, 0
  {
    match ParseHeader(s)
    case More => More
    case Fail(e) => Fail(e)
    case Done(n, rest) => if n == -1 then Done(Nil, rest) else Wrap(ParseItems(rest, n, level + 1))
  }

  ghost function Wrap(r: Outcome<seq<Reply>>): Outcome<Reply> {
    match r
    case More => More
    case Fail(e) => Fail(e)
    case Done(vs, rest) => Done(Array(vs), rest)
  }

  ghost function Prepend(us: seq<Reply>, r: Outcome<seq<Reply>>): Outcome<seq<Reply>> {
    match r
    case More => More
    case Fail(e) => Fail(e)
    case Done(vs, rest) => Done(us + vs, rest)
  }

  /** `n` items in a row. */
  ghost function ParseItems(s: Bytes, n: nat, level: nat): (r: Outcome<seq<Reply>>)
    requires level <= MAX_LEVEL
    ensures r.Done? ==> |r.value| == n && |r.rest| <= |s|
    decreases |s|, 2, n
  {
    if n == 0 then Done([], s) else
    match ParseReply(s, level)
    case More => More
    case Fail(e) => Fail(e)
    case Done(v, rest) => Prepend([v], ParseItems(rest, n - 1, level))
  }

  /** Status, error and integer lines. */
  ghost function ParseLine(t: ItemType, s: Bytes): (r: Outcome<Reply>)
    ensures Consumes(s, r)
  {
    match FindCRLF(s)
    case None => More
    case Some(k) =>
      if t == TInteger then
        match ParseLong(s[..k])
        case None => Fail(BadInteger)
        case Some(v) => Done(Integer(v), s[k + 2..])
      else
        Done(if t == TError then Error(s[..k]) else Status(s[..k]), s[k + 2..])
  }

  /** The two bytes after the content are skipped, whatever they are. */
  ghost function ParseBulk(s: Bytes): (r: Outcome<Reply>)
    ensures Consumes(s, r)
  {
    match FindCRLF(s)
    case None => More
    case Some(k) =>
      var rest := s[k + 2..];
      match ParseLong(s[..k])
      case None => Fail(BadBulkLength)
      case Some(n) =>
        if n < -1 then Fail(BulkLengthOutOfRange)
        else if n == -1 then Done(Nil, rest)
        else if n + 2 > |rest| then More
        else Done(Str(rest[..n]), rest[n + 2..])
  }

  /** The element count of an array. */
  ghost function ParseHeader(s: Bytes): (r: Outcome<int>)
    ensures Consumes(s, r)
    ensures r.Done? ==> -1 <= r.value <= INT_MAX
  {
    match FindCRLF(s)
    case None => More
    case Some(k) =>
      match ParseLong(s[..k])
      case None => Fail(BadMultiBulkLength)
      case Some(n) => if n < -1 || n > INT_MAX then Fail(MultiBulkLengthOutOfRange) else Done(n, s[k + 2..])
  }

  /** Everything a byte string holds: the complete replies at its front, and the
      error that ends it, if one does. */
  datatype Stream = Stream(replies: seq<Reply>, error: Option<ProtocolError>)

  ghost function ReadAll(s: Bytes): Stream
    decreases |s|
  {
    match ParseReply(s, 0)
    case More => Stream([], None)
    case Fail(e) => Stream([], Some(e))
    case Done(v, rest) => After([v], ReadAll(rest))
  }

  ghost function After(vs: seq<Reply>, st: Stream): Stream { Stream(vs + st.replies, st.error) }

  lemma AfterAfter(us: seq<Reply>, vs: seq<Reply>, st: Stream)
    ensures After(us, After(vs, st)) == After(us + vs, st)
  {
    assert us + (vs + st.replies) == us + vs + st.replies;
  }

  // ---- a verdict, once reached, does not depend on later bytes ----

  ghost function Extend<T>(r: Outcome<T>, x: Bytes): Outcome<T> {
    match r case Done(v, rest) => Done(v, rest + x) case _ => r
  }

  lemma {:induction false} FindCRLFStable(s: Bytes, x: Bytes)
    requires FindCRLF(s).Some?
    ensures FindCRLF(s + x) == FindCRLF(s)
  {
    if !CrlfAt(s, 0) {
      FindCRLFStable(s[1..], x);
      assert (s + x)[1..] == s[1..] + x;
    }
  }

  lemma SuffixExtends(s: Bytes, x: Bytes, k: nat)
    requires k <= |s|
    ensures (s + x)[k..] == s[k..] + x && (s + x)[..k] == s[..k]
  {
  }

  lemma LineStable(t: ItemType, s: Bytes, x: Bytes)
    requires !ParseLine(t, s).More?
    ensures ParseLine(t, s + x) == Extend(ParseLine(t, s), x)
  {
    var k := FindCRLF(s).value;
    FindCRLFStable(s, x);
    SuffixExtends(s, x, k);
    SuffixExtends(s, x, k + 2);
  }

  lemma HeaderStable(s: Bytes, x: Bytes)
    requires !ParseHeader(s).More?
    ensures ParseHeader(s + x) == Extend(ParseHeader(s), x)
  {
    var k := FindCRLF(s).value;
    FindCRLFStable(s, x);
    SuffixExtends(s, x, k);
    SuffixExtends(s, x, k + 2);
  }

  lemma BulkStable(s: Bytes, x: Bytes)
    requires !ParseBulk(s).More?
    ensures ParseBulk(s + x) == Extend(ParseBulk(s), x)
  {
    var k := FindCRLF(s).value;
    FindCRLFStable(s, x);
    SuffixExtends(s, x, k);
    SuffixExtends(s, x, k + 2);
    if ParseBulk(s).Done? && ParseBulk(s).value.Str? {
      var n := ParseLong(s[..k]).value;
      SuffixExtends(s[k + 2..], x, n);
      SuffixExtends(s[k + 2..], x, n + 2);
    }
  }

  lemma {:induction false} ReplyStable(s: Bytes, level: nat, x: Bytes)
    requires level <= MAX_LEVEL && !ParseReply(s, level).More?
    ensures ParseReply(s + x, level) == Extend(ParseReply(s, level), x)
    decreases |s|, 0
  {
    assert (s + x)[1..] == s[1..] + x;
    if TypeOf(s[0]).Some? { TypedStable(TypeOf(s[0]).value, s[1..], level, x); }
  }

  lemma {:induction false} TypedStable(t: ItemType, s: Bytes, level: nat, x: Bytes)
    requires level <= MAX_LEVEL && !ParseTyped(t, s, level).More?
    ensures ParseTyped(t, s + x, level) == Extend(ParseTyped(t, s, level), x)
    decreases |s|, 1
  {
    match t
    case TString => BulkStable(s, x);
    case TArray =>
      if level < MAX_LEVEL { ArrayStable(s, level, x); }
    case _ => LineStable(t, s, x);
  }

  lemma {:induction false} ArrayStable(s: Bytes, level: nat, x: Bytes)
    requires level < MAX_LEVEL && !ParseArray(s, level).More?
    ensures ParseArray(s + x, level) == Extend(ParseArray(s, level), x)
    decreases |s|, 0
  {
    HeaderStable(s, x);
    var h := ParseHeader(s);
    if h.Done? && h.value != -1 { ItemsStable(h.rest, h.value, level + 1, x); }
  }

  lemma {:induction false} ItemsStable(s: Bytes, n: nat, level: nat, x: Bytes)
    requires level <= MAX_LEVEL && !ParseItems(s, n, level).More?
    ensures ParseItems(s + x, n, level) == Extend(ParseItems(s, n, level), x)
    decreases |s|, 2, n
  {
    if n > 0 {
      ReplyStable(s, level, x);
      if ParseReply(s, level).Done? { ItemsStable(ParseReply(s, level).rest, n - 1, level, x); }
    }
  }

  /** Bytes that arrive later only add replies; an error stays the last word. */
  lemma {:induction false} ReadAllMonotone(s: Bytes, x: Bytes)
    ensures ReadAll(s).replies <= ReadAll(s + x).replies
    ensures ReadAll(s).error.Some? ==> ReadAll(s + x) == ReadAll(s)
    decreases |s|
  {
    var r := ParseReply(s, 0);
    if !r.More? { ReplyStable(s, 0, x); }
    if r.Done? { ReadAllMonotone(r.rest, x); }
  }

  // ---- printing, and reading back ----

  ghost function Encode(v: Reply): Bytes
    decreases v, 1
  {
    [TypeByte(v)] + Body(v)
  }

  ghost function TypeByte(v: Reply): Byte {
    match v
    case Status(_) => PLUS
    case Error(_) => MINUS
    case Integer(_) => COLON
    case Str(_) => DOLLAR
    case Nil => DOLLAR
    case Array(_) => STAR
  }

  ghost function Body(v: Reply): Bytes
    decreases v, 0
  {
    match v
    case Status(t) => t + CRLF
    case Error(t) => t + CRLF
    case Integer(n) => DecInt(n) + CRLF
    case Str(t) => DecInt(|t|) + CRLF + t + CRLF
    case Nil => DecInt(-1) + CRLF
    case Array(elems) => DecInt(|elems|) + CRLF + EncodeAll(elems)
  }

  ghost function EncodeAll(vs: seq<Reply>): Bytes
    decreases vs
  {
    if vs == [] then [] else Encode(vs[0]) + EncodeAll(vs[1..])
  }

  ghost predicate IsLine(t: Bytes) {
    forall i: nat {:trigger CrlfAt(t + CRLF, i)} :: i < |t| ==> !CrlfAt(t + CRLF, i)
  }

  /** The replies the protocol can carry to a reader at this level. */
  ghost predicate Sendable(v: Reply, level: nat)
    decreases v
  {
    match v
    case Status(t) => IsLine(t)
    case Error(t) => IsLine(t)
    case Str(t) => |t| <= LLONG_MAX
    case Integer(n) => IsInt64(n)
    case Nil => true
    case Array(elems) =>
      level < MAX_LEVEL && |elems| <= INT_MAX && forall i :: 0 <= i < |elems| ==> Sendable(elems[i], level + 1)
  }

  lemma LineEnds(t: Bytes, x: Bytes)
    requires IsLine(t)
    ensures FindCRLF(t + CRLF + x) == Some(|t|)
  {
    var s := t + CRLF + x;
    assert CrlfAt(s, |t|);
    var k := FindCRLF(s).value;
    assert k < |t| ==> CrlfAt(t + CRLF, k);
  }

  lemma NumberIsLine(v: int)
    ensures IsLine(DecInt(v))
    ensures CR !in DecInt(v)
  {
    ValueOfDec(if v < 0 then -v else v);
  }

  /** A number line reads back as its number. */
  lemma NumberLine(v: int, x: Bytes)
    requires IsInt64(v)
    ensures var s := DecInt(v) + CRLF + x;
      FindCRLF(s) == Some(|DecInt(v)|) && s[..|DecInt(v)|] == DecInt(v) && s[|DecInt(v)| + 2..] == x
      && ParseLong(s[..|DecInt(v)|]) == Some(v)
  {
    NumberIsLine(v);
    LineEnds(DecInt(v), x);
    DecIsParsed(v);
    assert (DecInt(v) + CRLF + x)[..|DecInt(v)|] == DecInt(v);
    assert (DecInt(v) + CRLF + x)[|DecInt(v)| + 2..] == x;
  }

  /** Every sendable reply is read back exactly, whatever follows it. */
  lemma {:induction false} EncodeRoundTrip(v: Reply, level: nat, x: Bytes)
    requires level <= MAX_LEVEL && Sendable(v, level)
    ensures ParseReply(Encode(v) + x, level) == Done(v, x)
    decreases v, 1
  {
    assert (Encode(v) + x)[1..] == Body(v) + x;
    BodyRoundTrip(v, level, x);
  }

  lemma {:induction false} BodyRoundTrip(v: Reply, level: nat, x: Bytes)
    requires level <= MAX_LEVEL && Sendable(v, level)
    ensures ParseTyped(TypeOf(TypeByte(v)).value, Body(v) + x, level) == Done(v, x)
    decreases v, 0
  {
    match v
    case Status(t) => LineRoundTrip(TStatus, t, x);
    case Error(t) => LineRoundTrip(TError, t, x);
    case Integer(n) => IntegerRoundTrip(n, x);
    case Nil => NilRoundTrip(x);
    case Str(t) => BulkRoundTrip(t, x);
    case Array(elems) => ArrayRoundTrip(elems, level, x);
  }

  lemma LineRoundTrip(t: ItemType, text: Bytes, x: Bytes)
    requires IsLine(text) && t in {TStatus, TError}
    ensures ParseLine(t, text + CRLF + x) == Done(if t == TError then Error(text) else Status(text), x)
  {
    LineEnds(text, x);
    assert (text + CRLF + x)[..|text|] == text && (text + CRLF + x)[|text| + 2..] == x;
  }

  lemma IntegerRoundTrip(n: int, x: Bytes)
    requires IsInt64(n)
    ensures ParseLine(TInteger, DecInt(n) + CRLF + x) == Done(Integer(n), x)
  {
    NumberLine(n, x);
  }

  lemma NilRoundTrip(x: Bytes)
    ensures ParseBulk(DecInt(-1) + CRLF + x) == Done(Nil, x)
  {
    NumberLine(-1, x);
  }

  lemma {:induction false} ArrayRoundTrip(elems: seq<Reply>, level: nat, x: Bytes)
    requires level < MAX_LEVEL && |elems| <= INT_MAX
    requires forall i :: 0 <= i < |elems| ==> Sendable(elems[i], level + 1)
    ensures ParseArray(DecInt(|elems|) + CRLF + EncodeAll(elems) + x, level) == Done(Array(elems), x)
    decreases elems, 1
  {
    HeaderRoundTrip(|elems|, EncodeAll(elems), x);
    EncodeAllRoundTrip(elems, level + 1, x);
  }

  lemma HeaderRoundTrip(n: nat, items: Bytes, x: Bytes)
    requires n <= INT_MAX
    ensures ParseHeader(DecInt(n) + CRLF + items + x) == Done(n, items + x)
  {
    assert DecInt(n) + CRLF + items + x == DecInt(n) + CRLF + (items + x);
    NumberLine(n, items + x);
  }

  lemma BulkRoundTrip(t: Bytes, x: Bytes)
    requires |t| <= LLONG_MAX
    ensures ParseBulk(DecInt(|t|) + CRLF + t + CRLF + x) == Done(Str(t), x)
  {
    var y := t + CRLF + x;
    assert DecInt(|t|) + CRLF + t + CRLF + x == DecInt(|t|) + CRLF + y;
    NumberLine(|t|, y);
    assert y[..|t|] == t && y[|t| + 2..] == x;
  }

  lemma {:induction false} EncodeAllRoundTrip(vs: seq<Reply>, level: nat, x: Bytes)
    requires level <= MAX_LEVEL && forall i :: 0 <= i < |vs| ==> Sendable(vs[i], level)
    ensures ParseItems(EncodeAll(vs) + x, |vs|, level) == Done(vs, x)
    decreases vs, 0
  {
    if vs == [] {
      assert EncodeAll(vs) + x == x;
    } else {
      assert EncodeAll(vs) + x == Encode(vs[0]) + (EncodeAll(vs[1..]) + x);
      EncodeRoundTrip(vs[0], level, EncodeAll(vs[1..]) + x);
      EncodeAllRoundTrip(vs[1..], level, x);
      assert [vs[0]] + vs[1..] == vs;
    }
  }

  /** A stream of sendable replies is read back in order, and nothing else is
      read from it until more bytes come. */
  lemma {:induction false} StreamRoundTrip(vs: seq<Reply>, x: Bytes)
    requires forall i :: 0 <= i < |vs| ==> Sendable(vs[i], 0)
    ensures ReadAll(EncodeAll(vs) + x) == After(vs, ReadAll(x))
  {
    if vs == [] {
      assert EncodeAll(vs) + x == x;
    } else {
      assert EncodeAll(vs) + x == Encode(vs[0]) + (EncodeAll(vs[1..]) + x);
      EncodeRoundTrip(vs[0], 0, EncodeAll(vs[1..]) + x);
      StreamRoundTrip(vs[1..], x);
      AfterAfter([vs[0]], vs[1..], ReadAll(x));
      assert [vs[0]] + vs[1..] == vs;
    }
  }
}
