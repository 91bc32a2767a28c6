/** Dynamic strings (sds.c, sds.h): the five header widths, the growth policy and
    its cost. Every operation hands back the string to use from then on and the old
    one is dead, so a string is a value: its header, its allocation and its bytes. */
module Sds {
  import opened Bytes

  datatype Header = Type5 | Type8 | Type16 | Type32 | Type64

  datatype SdsString = SdsString(header: Header, alloc: nat, bytes: Bytes) {
    /** Length and allocation fit their header fields; a Type5 header has no
        allocation field, so such a string has no spare room. */
    ghost predicate Valid() {
      |bytes| <= alloc <= Capacity(header) && (header.Type5? ==> alloc == |bytes|)
    }

    function Avail(): int { if header.Type5? then 0 else alloc - |bytes| }
  }

  const SDS_MAX_PREALLOC: nat := 1024 * 1024

  function Capacity(h: Header): nat {
    match h
    case Type5 => 31
    case Type8 => 0xff
    case Type16 => 0xffff
    case Type32 => 0xffff_ffff
    case Type64 => 0xffff_ffff_ffff_ffff
  }

  function ReqType(size: nat): Header {
    if size < 32 then Type5
    else if size < 0xff then Type8
    else if size < 0xffff then Type16
    else if size < 0xffff_ffff then Type32
    else Type64
  }

  /** Headers an appended-to string gets: never Type5. */
  function GrowType(size: nat): Header {
    if ReqType(size).Type5? then Type8 else ReqType(size)
  }

  function NewLen(init: Bytes): SdsString {
    SdsString(if init == [] then Type8 else ReqType(|init|), |init|, init)
  }

  function Empty(): SdsString { NewLen([]) }

  /** What is allocated for a string that needs this much. */
  function Grown(wanted: nat): nat {
    if wanted < SDS_MAX_PREALLOC then wanted * 2 else wanted + SDS_MAX_PREALLOC
  }

  function MakeRoomFor(s: SdsString, addlen: nat): SdsString {
    if s.Avail() >= addlen then s else
    var wanted := |s.bytes| + addlen;
    var newlen := Grown(wanted);
    SdsString(GrowType(newlen), newlen, s.bytes)
  }

  function CatLen(s: SdsString, t: Bytes): (r: SdsString)
    ensures r.bytes == s.bytes + t
  {
    var room := MakeRoomFor(s, |t|);
    room.(bytes := room.bytes + t)
  }

  // Object sizes are below 2^63 on the platforms the code runs on, so that the
  // doubled or padded size still fits the widest header.
  const MAX_OBJECT: nat := 0x7fff_ffff_ffff_ffff

  /** Appending keeps a string well formed, gives it room for the new bytes, and
      never allocates more than twice what it then holds or already had. */
  lemma CatLenValid(s: SdsString, t: Bytes)
    requires s.Valid() && |s.bytes| + |t| <= MAX_OBJECT
    ensures CatLen(s, t).Valid()
    ensures MakeRoomFor(s, |t|).alloc >= |s.bytes| + |t|
    ensures CatLen(s, t).alloc <= if s.alloc > 2 * (|s.bytes| + |t|) then s.alloc else 2 * (|s.bytes| + |t|)
  {
  }

  /** sdsrange on C ints: bounds from the end when negative, inclusive, clamped. */
  method Range(s: SdsString, start0: int, end0: int) returns (r: SdsString)
    ensures r.bytes == Clamped(s.bytes, start0, end0)
    ensures r.header == s.header && (!s.header.Type5? ==> r.alloc == s.alloc)
    ensures s.Valid() ==> r.Valid()
  {
    var len := |s.bytes|;
    var start, end := start0, end0;
    if len == 0 { return s; }
    if start < 0 {
      start := len + start;
      if start < 0 { start := 0; }
    }
    if end < 0 {
      end := len + end;
      if end < 0 { end := 0; }
    }
    var newlen := if start > end then 0 else end - start + 1;
    if newlen != 0 {
      if start >= len {
        newlen := 0;
      } else if end >= len {
        end := len - 1;
        newlen := if start > end then 0 else end - start + 1;
      }
    } else {
      start := 0;
    }
    var kept := if newlen == 0 then [] else s.bytes[start..start + newlen];
    r := SdsString(s.header, if s.header.Type5? then newlen else s.alloc, kept);
  }

  /** A bound, counted from the end when it is negative. */
  function FromEnd(x: int, n: nat): nat {
    if x >= 0 then x else if n + x > 0 then n + x else 0
  }

  /** The bytes from one inclusive bound to the other. */
  function Clamped(b: Bytes, start: int, end: int): Bytes {
    var lo, last := FromEnd(start, |b|), FromEnd(end, |b|);
    var hi := if last < |b| then last + 1 else |b|;
    if lo < hi then b[lo..hi] else []
  }

  /** A bound from the end is that bound from the start; one before the start is the start,
      and one behind the end is the end. */
  lemma Bounds(b: Bytes, start: int, end: int)
    ensures 0 <= start <= end < |b| ==> Clamped(b, start, end) == b[start..end + 1]
    ensures 0 <= start < |b| ==> Clamped(b, start - |b|, end) == Clamped(b, start, end)
    ensures 0 <= end < |b| ==> Clamped(b, start, end - |b|) == Clamped(b, start, end)
    ensures start <= -|b| ==> Clamped(b, start, end) == Clamped(b, 0, end)
    ensures end <= -|b| ==> Clamped(b, start, end) == Clamped(b, start, 0)
    ensures end >= |b| > 0 ==> Clamped(b, start, end) == Clamped(b, start, |b| - 1)
    ensures start >= |b| || 0 <= end < start ==> Clamped(b, start, end) == []
  {
    hide FromEnd;
    Ends(start, |b|);
    Ends(end, |b|);
    Ends(|b| - 1, |b|);
    Ends(0, |b|);
  }

  lemma Ends(x: int, n: nat)
    ensures x >= 0 ==> FromEnd(x, n) == x
    ensures 0 <= x < n ==> FromEnd(x - n, n) == x
    ensures x + n <= 0 ==> FromEnd(x, n) == 0
  {}

  /** A string gets the narrowest header that its length is below, or, with 31 bytes, the
      narrowest of all; one that is appended to never gets that one. */
  lemma Narrowest(size: nat)
    ensures ReqType(size) == Type5 <==> size < 32
    ensures ReqType(size) == Type8 <==> 32 <= size < 255
    ensures ReqType(size) == Type16 <==> 255 <= size < 65_535
    ensures ReqType(size) == Type32 <==> 65_535 <= size < 4_294_967_295
    ensures GrowType(size) == Type8 <==> size < 255
    ensures size >= 32 ==> GrowType(size) == ReqType(size)
  {}

  /** Below one mebibyte an allocation is doubled, from there on a mebibyte is added, and none
      is made while there is room. */
  lemma Growth(s: SdsString, addlen: nat)
    requires s.Valid()
    ensures var need, room := |s.bytes| + addlen, MakeRoomFor(s, addlen);
      && room.bytes == s.bytes
      && (need <= s.alloc ==> room == s)
      && (need > s.alloc && need < 1_048_576 ==> room.alloc == need + need)
      && (need > s.alloc && need >= 1_048_576 ==> room.alloc == need + 1_048_576)
  {}

  // ---- the cost of appending ----

  /** Bytes a growth step moves: content and terminator, or none. */
  function Moved(s: SdsString, addlen: nat): nat {
    if s.Avail() >= addlen then 0 else |s.bytes| + 1
  }

  /** Appending pieces in order to an empty string: the string, and all bytes moved. */
  ghost function AppendRun(pieces: seq<Bytes>): (SdsString, nat) {
    if pieces == [] then (Empty(), 0) else
    var (s, moved) := AppendRun(pieces[..|pieces| - 1]);
    var t := pieces[|pieces| - 1];
    (CatLen(s, t), moved + Moved(s, |t|))
  }

  lemma {:induction false} RunHolds(pieces: seq<Bytes>)
    ensures AppendRun(pieces).0.bytes == Concat(pieces)
  {
    if pieces != [] {
      var front := pieces[..|pieces| - 1];
      RunHolds(front);
      ConcatSnoc(front, pieces[|pieces| - 1]);
      assert pieces == front + [pieces[|pieces| - 1]];
    }
  }

  /** One more piece, by its effect on lengths. */
  lemma Appended(front: seq<Bytes>, t: Bytes)
    requires !AppendRun(front).0.header.Type5? && |AppendRun(front).0.bytes| <= AppendRun(front).0.alloc
    ensures var (was, moved), (s, moved') := AppendRun(front), AppendRun(front + [t]);
      && !s.header.Type5? && s.bytes == was.bytes + t
      && s.alloc == (if |s.bytes| <= was.alloc then was.alloc else Grown(|s.bytes|)) >= |s.bytes|
      && moved' == if |s.bytes| <= was.alloc then moved else moved + |was.bytes| + 1
  {
    assert (front + [t])[..|front|] == front;
  }

  /** The most that can have been moved when the last growth was for `wanted` bytes: the
      growth before it was for half as many, and all of that allocation was in use. */
  ghost function Most(wanted: nat): nat {
    if wanted == 0 then 0
    else
      var before := (wanted - 1) / 2;
      2 * before + 1 + Most(before)
  }

  lemma {:induction false} MostGrows(v: nat, w: nat)
    requires v <= w
    ensures Most(v) <= Most(w) <= 2 * w
  {
    if w != 0 {
      if v != 0 { MostGrows((v - 1) / 2, (w - 1) / 2); } else { MostGrows(0, (w - 1) / 2); }
    }
  }

  lemma MostStep(v: nat, w: nat)
    requires 2 * v + 1 <= w <= 2 * v + 2
    ensures Most(w) == Most(v) + 2 * v + 1
  {
    assert (w - 1) / 2 == v;
  }

  lemma MostNext(v: nat, w: nat)
    requires 2 * v + 1 <= w
    ensures Most(v) + 2 * v + 1 <= Most(w) <= 2 * w
  {
    hide Most;
    MostStep(v, 2 * v + 1);
    MostGrows(2 * v + 1, w);
  }

  lemma MostNone()
    ensures Most(0) == 0
  {}

  /** Around half the limit it passes what a growth by a constant allocates. */
  lemma MostAtLimit()
    ensures Most(524_300) < SDS_MAX_PREALLOC < Most(524_301)
  {
    hide Most;
    MostNone();
    MostStep(0, 1); MostStep(1, 3); MostStep(3, 7); MostStep(7, 15); MostStep(15, 31);
    MostStep(31, 63); MostStep(63, 127); MostStep(127, 255); MostStep(255, 511); MostStep(511, 1023);
    MostStep(1023, 2047); MostStep(2047, 4095); MostStep(4095, 8191); MostStep(8191, 16_383); MostStep(16_383, 32_767);
    MostStep(32_767, 65_536); MostStep(65_536, 131_074);
    MostStep(131_074, 262_149); MostStep(262_149, 524_300);
    MostStep(131_074, 262_150); MostStep(262_150, 524_301);
  }

  // Up to this length every run is paid for, and from here on some run is not.
  const PAID_LIMIT: nat := 1_048_603

  /** In any append-only run the string holds the pieces in order and stays within
      twice its length; below the limit, all the moving done so far is paid for by the
      allocation. */
  lemma {:induction false} AppendRunCost(pieces: seq<Bytes>)
    requires |Concat(pieces)| <= MAX_OBJECT
    ensures var (s, moved) := AppendRun(pieces);
      && s.bytes == Concat(pieces)
      && s.Valid() && !s.header.Type5?
      && s.alloc <= 2 * |s.bytes|
      && (|s.bytes| < PAID_LIMIT ==> moved <= s.alloc)
  {
    if pieces != [] {
      var front, t := pieces[..|pieces| - 1], pieces[|pieces| - 1];
      assert pieces == front + [t];
      ConcatSnoc(front, t);
      AppendRunCost(front);
      CatLenValid(AppendRun(front).0, t);
    }
    if |Concat(pieces)| < PAID_LIMIT { var _ := PaidBelow(pieces); }
  }

  lemma {:induction false} PaidBelow(pieces: seq<Bytes>) returns (last: nat)
    requires |Concat(pieces)| < PAID_LIMIT
    ensures var (s, moved) := AppendRun(pieces);
      && !s.header.Type5? && |s.bytes| == |Concat(pieces)| <= s.alloc && moved <= s.alloc
      && (s.alloc < 2 * SDS_MAX_PREALLOC ==> s.alloc == 2 * last && moved <= Most(last))
  {
    hide Most;
    last := 0;
    MostNone();
    if pieces != [] {
      var front, t := pieces[..|pieces| - 1], pieces[|pieces| - 1];
      assert pieces == front + [t];
      ConcatSnoc(front, t);
      last := PaidBelow(front);
      Appended(front, t);
      var n := |Concat(pieces)|;
      if n > AppendRun(front).0.alloc {
        if n < SDS_MAX_PREALLOC {
          MostNext(last, n);
          last := n;
        } else {
          MostGrows(last, 524_300);
          MostAtLimit();
        }
      }
    }
  }

  /** A run for `Most`. */
  lemma {:induction false} MostReached(wanted: nat) returns (pieces: seq<Bytes>)
    requires wanted < SDS_MAX_PREALLOC
    ensures var (s, moved) := AppendRun(pieces);
      !s.header.Type5? && |s.bytes| == wanted && s.alloc == 2 * wanted && moved == Most(wanted)
  {
    pieces := [];
    if wanted != 0 {
      pieces := MostReached((wanted - 1) / 2);
      pieces := Leap(pieces, wanted);
    }
  }

  /** The allocation is filled up, and then it grows. */
  lemma Leap(front: seq<Bytes>, wanted: nat) returns (pieces: seq<Bytes>)
    requires var s := AppendRun(front).0; !s.header.Type5? && |s.bytes| <= s.alloc < wanted
    ensures var (was, moved), (s, moved') := AppendRun(front), AppendRun(pieces);
      && !s.header.Type5? && |s.bytes| == wanted && s.alloc == Grown(wanted) && moved' == moved + was.alloc + 1
  {
    var was := AppendRun(front).0;
    var fill, rest: Bytes := seq(was.alloc - |was.bytes|, _ => NUL), seq(wanted - was.alloc, _ => NUL);
    Appended(front, fill);
    Appended(front + [fill], rest);
    pieces := front + [fill] + [rest];
  }

  /** From the limit on, a run of every length has moved more than it has allocated. */
  lemma {:induction false} UnpaidFrom(n: nat) returns (pieces: seq<Bytes>)
    requires n >= PAID_LIMIT
    ensures var (s, moved) := AppendRun(pieces);
      !s.header.Type5? && |s.bytes| == n <= s.alloc && moved > s.alloc
  {
    hide Most;
    if n == PAID_LIMIT {
      MostAtLimit();
      pieces := MostReached(524_301);
      pieces := Leap(pieces, n);
    } else {
      var front := UnpaidFrom(n - 1);
      Appended(front, [NUL]);
      pieces := front + [[NUL]];
    }
  }

  /** The lengths up to which every way of appending is paid for by the allocation. */
  lemma PaidForIff(n: nat)
    ensures (forall pieces :: |Concat(pieces)| == n ==> AppendRun(pieces).1 <= AppendRun(pieces).0.alloc)
      <==> n < PAID_LIMIT
  {
    if n < PAID_LIMIT {
      forall pieces | |Concat(pieces)| == n ensures AppendRun(pieces).1 <= AppendRun(pieces).0.alloc {
        var _ := PaidBelow(pieces);
      }
    } else {
      var pieces := UnpaidFrom(n);
      RunHolds(pieces);
    }
  }
}
