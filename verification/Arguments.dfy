/** The reader of its own output in async.c: nextArgument walks a formatted command
    by C string functions, although the arguments are arbitrary bytes. */
module Arguments {
  import opened Bytes
  import opened Numbers
  import opened Commands

  /** strchr for a byte other than NUL. */
  function StrChr(mem: Bytes, p: nat, c: Byte): (r: Option<nat>)
    ensures r.Some? ==> p <= r.value < |mem| && mem[r.value] == c
    decreases |mem| - p
  {
    if p >= |mem| || mem[p] == NUL then None
    else if mem[p] == c then Some(p)
    else StrChr(mem, p + 1, c)
  }

  /** The digits strtol reads, as a number. */
  function DigitsAt(mem: Bytes, p: nat, sofar: nat): nat
    decreases |mem| - p
  {
    if p < |mem| && IsDigit(mem[p]) then DigitsAt(mem, p + 1, 10 * sofar + (mem[p] - ZERO)) else sofar
  }

  /** strtol in base 10: blanks, a sign, digits, clamped to the range of long. */
  function StrToL(mem: Bytes, p: nat): int
    decreases |mem| - p
  {
    if p >= |mem| then 0
    else if IsSpace(mem[p]) then StrToL(mem, p + 1)
    else if mem[p] == MINUS then var v := DigitsAt(mem, p + 1, 0); if 0 - v < LLONG_MIN then LLONG_MIN else 0 - v
    else var v := DigitsAt(mem, if mem[p] == PLUS then p + 1 else p, 0); if v > LLONG_MAX then LLONG_MAX else v
  }

  /** A long cast to int, then stored in a size_t. */
  function ThroughInt(v: int): nat {
    var i := (v + 0x8000_0000) % 0x1_0000_0000 - 0x8000_0000;
    i % TWO_64
  }

  datatype Next = NoArgument | Aborts | Argument(at: nat, len: nat, next: nat)

  /** nextArgument, on memory that ends with the string's terminator. */
  function NextArgument(mem: Bytes, start: nat): Next
    requires start < |mem|
  {
    var p := if mem[start] != DOLLAR then StrChr(mem, start, DOLLAR) else Some(start);
    if p.None? then NoArgument else
    var len := ThroughInt(StrToL(mem, p.value + 1));
    match StrChr(mem, p.value, CR)
    case None => Aborts
    case Some(q) => Argument(q + 2, len, q + 2 + len + 2)
  }

  /** Calling nextArgument from `start` until it returns no argument gives `argv`. */
  ghost predicate Yields(mem: Bytes, start: nat, argv: seq<Bytes>)
    decreases |argv|
  {
    && start < |mem|
    && if argv == [] then NextArgument(mem, start) == NoArgument
       else match NextArgument(mem, start)
         case Argument(at, len, next) =>
           && at + len <= |mem| && mem[at..at + len] == argv[0]
           && Yields(mem, next, argv[1..])
         case _ => false
  }

  lemma {:induction false} DigitsAtDec(mem: Bytes, p: nat, digits: Bytes, sofar: nat)
    requires p + |digits| < |mem| && mem[p..p + |digits|] == digits && AllDigits(digits)
    requires !IsDigit(mem[p + |digits|])
    ensures DigitsAt(mem, p, sofar) == Shift(sofar, |digits|) + Value(digits)
    decreases |digits|
  {
    if digits != [] {
      var d := digits[0];
      assert mem[p] == mem[p..p + |digits|][0] == d;
      assert digits[1..] == mem[p + 1..p + 1 + |digits[1..]|];
      DigitsAtDec(mem, p + 1, digits[1..], 10 * sofar + (d - ZERO));
      ValueFront(digits);
      ShiftAdd(10 * sofar, d - ZERO, |digits| - 1);
      ShiftTen(sofar, |digits| - 1);
    }
  }

  /** A number followed by k more digits. */
  ghost function Shift(n: nat, k: nat): nat { if k == 0 then n else 10 * Shift(n, k - 1) }

  lemma {:induction false} ShiftTen(n: nat, k: nat)
    ensures Shift(10 * n, k) == Shift(n, k + 1)
  {
    if k > 0 { ShiftTen(n, k - 1); }
  }

  lemma {:induction false} ShiftAdd(m: nat, n: nat, k: nat)
    ensures Shift(m + n, k) == Shift(m, k) + Shift(n, k)
  {
    if k > 0 { ShiftAdd(m, n, k - 1); }
  }

  lemma {:induction false} ValueFront(digits: Bytes)
    requires digits != [] && AllDigits(digits)
    ensures AllDigits(digits[1..]) && Value(digits) == Shift(digits[0] - ZERO, |digits| - 1) + Value(digits[1..])
  {
    var front := digits[..|digits| - 1];
    if front != [] {
      ValueFront(front);
      assert digits[1..][..|digits| - 2] == front[1..];
    } else {
      assert digits[1..] == [];
    }
  }

  /** Among bytes without NUL and `c`, strchr goes on. */
  lemma {:induction false} StrChrSkips(mem: Bytes, p: nat, q: nat, c: Byte)
    requires p <= q < |mem| && mem[q] == c && c != NUL
    requires forall i :: p <= i < q ==> mem[i] != NUL && mem[i] != c
    ensures StrChr(mem, p, c) == Some(q)
    decreases q - p
  {
    if p < q { StrChrSkips(mem, p + 1, q, c); }
  }

  /** At a bulk string, nextArgument finds its bytes, whatever they are. */
  lemma AtBulk(mem: Bytes, pre: Bytes, arg: Bytes, post: Bytes)
    requires mem == pre + Bulk(arg) + post && |arg| <= INT_MAX
    ensures |pre| < |mem| && NextArgument(mem, |pre|) ==
      Argument(|pre| + |NumberLineOf(DOLLAR, |arg|)|, |arg|, |pre + Bulk(arg)|)
    ensures var at := |pre| + |NumberLineOf(DOLLAR, |arg|)|;
      at + |arg| <= |mem| && mem[at..at + |arg|] == arg
  {
    hide StrChr, StrToL;
    var line := NumberLineOf(DOLLAR, |arg|);
    assert mem == pre + line + (arg + CRLF + post);
    AtLengthLine(mem, pre, |arg|, arg + CRLF + post);
    assert mem[|pre| + |line|..|pre| + |line| + |arg|] == arg;
  }

  lemma AtLengthLine(mem: Bytes, pre: Bytes, n: nat, post: Bytes)
    requires mem == pre + NumberLineOf(DOLLAR, n) + post && n <= INT_MAX
    ensures mem[|pre|] == DOLLAR && StrToL(mem, |pre| + 1) == n
    ensures StrChr(mem, |pre|, CR) == Some(|pre| + |NumberLineOf(DOLLAR, n)| - 2)
  {
    var digits, s := Dec(n), |pre|;
    ValueOfDec(n);
    hide Dec;
    assert mem == pre + [DOLLAR] + digits + CRLF + post;
    var q := s + 1 + |digits|;
    assert mem[s] == DOLLAR && mem[q] == CR;
    assert mem[s + 1..q] == digits;
    forall i | s <= i < q ensures mem[i] != NUL && mem[i] != CR {
      assert i > s ==> mem[i] == digits[i - s - 1];
    }
    StrChrSkips(mem, s, q, CR);
    DigitsAtDec(mem, s + 1, digits, 0);
    ShiftZero(|digits|);
    assert mem[s + 1] == digits[0];
  }

  lemma {:induction false} ShiftZero(k: nat)
    ensures Shift(0, k) == 0
  {
    if k > 0 { ShiftZero(k - 1); }
  }

  lemma {:induction false} BulksYield(mem: Bytes, pre: Bytes, argv: seq<Bytes>)
    requires mem == pre + Bulks(argv) + [NUL]
    requires forall j :: 0 <= j < |argv| ==> |argv[j]| <= INT_MAX
    ensures Yields(mem, |pre|, argv)
    decreases |argv|
  {
    if argv == [] {
      assert mem[|pre|] == NUL;
    } else {
      hide Bulk, Bulks, NextArgument, Yields, NumberLineOf;
      var arg, rest := argv[0], argv[1..];
      BulksFront(argv);
      assert mem == pre + Bulk(arg) + (Bulks(rest) + [NUL]);
      AtBulk(mem, pre, arg, Bulks(rest) + [NUL]);
      assert mem == (pre + Bulk(arg)) + Bulks(rest) + [NUL];
      BulksYield(mem, pre + Bulk(arg), rest);
      OneMore(mem, |pre|, argv);
    }
  }

  lemma OneMore(mem: Bytes, start: nat, argv: seq<Bytes>)
    requires start < |mem| && argv != [] && NextArgument(mem, start).Argument?
    requires var n := NextArgument(mem, start);
      n.at + n.len <= |mem| && mem[n.at..n.at + n.len] == argv[0] && Yields(mem, n.next, argv[1..])
    ensures Yields(mem, start, argv)
  {
    hide NextArgument;
  }

  /** Walking a formatted command gives back exactly its argument vector, even when
      arguments hold dollar signs, line ends or NUL bytes. */
  lemma WireYields(argv: seq<Bytes>)
    requires |argv| <= INT_MAX && forall j :: 0 <= j < |argv| ==> |argv[j]| <= INT_MAX
    ensures Yields(Wire(argv) + [NUL], 0, argv)
  {
    var mem, h := Wire(argv) + [NUL], NumberLineOf(STAR, |argv|);
    WireIsBulks(argv);
    BulksYield(mem, h, argv);
    HeaderSkipped(mem, argv);
  }

  /** The count line holds no dollar sign: the first call lands on the first bulk. */
  lemma HeaderSkipped(mem: Bytes, argv: seq<Bytes>)
    requires mem == NumberLineOf(STAR, |argv|) + Bulks(argv) + [NUL]
    ensures NextArgument(mem, 0) == NextArgument(mem, |NumberLineOf(STAR, |argv|)|)
  {
    var h, digits := NumberLineOf(STAR, |argv|), Dec(|argv|);
    ValueOfDec(|argv|);
    assert h == [STAR] + digits + CRLF;
    forall i | 0 <= i < |h| ensures mem[i] != NUL && mem[i] != DOLLAR {
      assert mem[i] == h[i];
      assert 0 < i < |h| - 2 ==> h[i] == digits[i - 1];
    }
    if argv == [] {
      assert mem[|h|] == NUL;
      StrChrStops(mem, 0, |h|, DOLLAR);
    } else {
      BulksFront(argv);
      assert mem[|h|] == DOLLAR;
      StrChrSkips(mem, 0, |h|, DOLLAR);
    }
  }

  lemma {:induction false} StrChrStops(mem: Bytes, p: nat, q: nat, c: Byte)
    requires p <= q < |mem| && mem[q] == NUL && c != NUL
    requires forall i :: p <= i < q ==> mem[i] != c
    ensures StrChr(mem, p, c) == None
    decreases q - p
  {
    if p < q { StrChrStops(mem, p + 1, q, c); }
  }
}
