/** Decimal numbers: the strict parser of read.c, the printers of sds.c and the
    digit counter of hiredis.c, against one definition of decimal notation. */
module Numbers {
  import opened Bytes

  newtype UInt64 = x: int | 0 <= x < 0x1_0000_0000_0000_0000

  const LLONG_MAX: int := 0x7fff_ffff_ffff_ffff
  const LLONG_MIN: int := -0x8000_0000_0000_0000
  const ULLONG_MAX: int := 0xffff_ffff_ffff_ffff
  const INT_MAX: int := 0x7fff_ffff
  const TWO_64: int := 0x1_0000_0000_0000_0000

  // Room the C printers are given: 20 characters and the terminator.
  const LLSTR_SIZE: nat := 21

  predicate IsDigit(b: Byte) { ZERO <= b <= NINE }

  ghost predicate AllDigits(s: Bytes) { forall i :: 0 <= i < |s| ==> IsDigit(s[i]) }

  predicate IsInt64(v: int) { LLONG_MIN <= v <= LLONG_MAX }

  /** Canonical decimal notation of a natural number. */
  function Dec(n: nat): (s: Bytes)
    ensures s != []
  {
    if n < 10 then [ZERO + n] else Dec(n / 10) + [ZERO + n % 10]
  }

  /** Canonical decimal notation of an integer. */
  function DecInt(v: int): (s: Bytes)
    ensures s != []
  {
    if v < 0 then [MINUS] + Dec(-v) else Dec(v)
  }

  /** The number a digit string stands for. */
  ghost function Value(s: Bytes): nat
    requires AllDigits(s)
  {
    if s == [] then 0 else 10 * Value(s[..|s| - 1]) + (s[|s| - 1] - ZERO)
  }

  ghost predicate Canonical(s: Bytes) {
    s != [] && AllDigits(s) && (s[0] == ZERO ==> |s| == 1)
  }

  /** What the strict parser accepts, and the number it then returns: an
      optional minus sign, no leading zero, no minus zero, 64 bits. */
  ghost function ParseLong(s: Bytes): Option<int> {
    if s != [] && s[0] == MINUS then
      if Canonical(s[1..]) && s[1] != ZERO && Value(s[1..]) <= -LLONG_MIN then Some(0 - Value(s[1..])) else None
    else
      if Canonical(s) && Value(s) <= LLONG_MAX then Some(Value(s)) else None
  }

  // ---- Dec and Value undo each other ----

  lemma {:induction false} ValueOfDec(n: nat)
    ensures Canonical(Dec(n)) && Value(Dec(n)) == n && (Dec(n)[0] == ZERO <==> n == 0)
  {
    if n >= 10 {
      ValueOfDec(n / 10);
      assert Dec(n)[..|Dec(n)| - 1] == Dec(n / 10);
    } else {
      assert Dec(n)[..0] == [];
    }
  }

  lemma {:induction false} DecOfValue(s: Bytes)
    requires Canonical(s)
    ensures Dec(Value(s)) == s
  {
    var front, d := s[..|s| - 1], s[|s| - 1] - ZERO;
    if |s| > 1 {
      assert Canonical(front);
      DecOfValue(front);
      ValueOfDec(Value(front));
      assert Value(s) / 10 == Value(front) && Value(s) % 10 == d;
      assert s == front + [ZERO + d];
    } else {
      assert front == [];
    }
  }

  /** The strict parser accepts exactly the canonical notations of 64-bit
      integers, and reads each one back. */
  lemma ParseLongIff(s: Bytes, v: int)
    ensures ParseLong(s) == Some(v) <==> IsInt64(v) && s == DecInt(v)
  {
    if ParseLong(s) == Some(v) { ParsedIsDec(s, v); }
    if IsInt64(v) && s == DecInt(v) { DecIsParsed(v); }
  }

  lemma DecIsParsed(v: int)
    requires IsInt64(v)
    ensures ParseLong(DecInt(v)) == Some(v)
  {
    if v < 0 {
      ValueOfDec(-v);
      assert DecInt(v)[1..] == Dec(-v);
    } else {
      ValueOfDec(v);
    }
  }

  lemma ParsedIsDec(s: Bytes, v: int)
    requires ParseLong(s) == Some(v)
    ensures IsInt64(v) && s == DecInt(v)
  {
    if s != [] && s[0] == MINUS {
      DecOfValue(s[1..]);
      assert s == [MINUS] + s[1..];
      assert s[1..] == Dec(-v);
    } else {
      DecOfValue(s);
    }
  }

  lemma {:induction false} ValueGrows(s: Bytes, k: nat)
    requires AllDigits(s) && k <= |s|
    ensures Value(s[..k]) <= Value(s)
  {
    if k < |s| {
      ValueGrows(s[..|s| - 1], k);
      assert s[..|s| - 1][..k] == s[..k];
    } else {
      assert s[..k] == s;
    }
  }

  // ---- the parser ----

  /** string2ll. The type of `v` makes the verifier show that every unsigned step
      stays below 2^64. */
  method StringToLongLong(s: Bytes) returns (r: Option<int>)
    ensures r == ParseLong(s)
  {
    hide ParseLong, Value, AllDigits, Dec, DecInt;
    var slen := |s|;
    var p := 0;
    var negative := false;
    if p == slen {
      TooShort(s);
      return None;
    }
    if slen == 1 && s[0] == ZERO {
      ZeroParsed(s);
      return Some(0);
    }
    if s[0] == MINUS {
      negative := true;
      p := 1;
      if p == slen {
        TooShort(s);
        return None;
      }
    }
    ghost var start := p;
    var v: UInt64;
    if ZERO < s[p] <= NINE {
      v := (s[p] - ZERO) as UInt64;
      p := p + 1;
      FirstDigit(s, start);
    } else {
      BadFirstDigit(s, start);
      return None;
    }
    while p < slen && IsDigit(s[p])
      invariant start < p <= slen
      invariant AllDigits(s[start..p]) && v as int == Value(s[start..p])
    {
      var d := (s[p] - ZERO) as UInt64;
      NextDigit(s, start, p);
      if v > 0xffff_ffff_ffff_ffff / 10 {
        TooLarge(s, start, p + 1);
        return None;
      }
      v := v * 10;
      if v > 0xffff_ffff_ffff_ffff - d {
        TooLarge(s, start, p + 1);
        return None;
      }
      v := v + d;
      p := p + 1;
    }
    if p < slen {
      BadDigit(s, start, p);
      return None;
    }
    Accepted(s, start, p);
    if negative {
      if v > 0x7fff_ffff_ffff_ffff + 1 { return None; }
      return Some(-(v as int));
    } else {
      if v > 0x7fff_ffff_ffff_ffff { return None; }
      return Some(v as int);
    }
  }

  ghost predicate DigitsFrom(s: Bytes, start: nat) {
    s != [] && start == if s[0] == MINUS then 1 else 0
  }

  lemma ValueSnoc(digits: Bytes, b: Byte)
    requires AllDigits(digits) && IsDigit(b)
    ensures AllDigits(digits + [b]) && Value(digits + [b]) == 10 * Value(digits) + (b - ZERO)
  {
    assert (digits + [b])[..|digits|] == digits;
  }

  lemma FirstDigit(s: Bytes, p: nat)
    requires p < |s| && IsDigit(s[p])
    ensures AllDigits(s[p..p + 1]) && Value(s[p..p + 1]) == s[p] - ZERO
  {
    ValueSnoc([], s[p]);
    assert s[p..p + 1] == [] + [s[p]];
  }

  lemma NextDigit(s: Bytes, start: nat, p: nat)
    requires start <= p < |s| && AllDigits(s[start..p]) && IsDigit(s[p])
    ensures AllDigits(s[start..p + 1]) && Value(s[start..p + 1]) == 10 * Value(s[start..p]) + (s[p] - ZERO)
  {
    ValueSnoc(s[start..p], s[p]);
    assert s[start..p] + [s[p]] == s[start..p + 1];
  }

  lemma TooShort(s: Bytes)
    requires s == [] || (|s| == 1 && s[0] == MINUS)
    ensures ParseLong(s) == None
  {
  }

  lemma ZeroParsed(s: Bytes)
    requires |s| == 1 && s[0] == ZERO
    ensures ParseLong(s) == Some(0)
  {
    DecIsParsed(0);
    assert s == DecInt(0);
  }

  lemma BadFirstDigit(s: Bytes, start: nat)
    requires DigitsFrom(s, start) && start < |s| && !(ZERO < s[start] <= NINE) && s != [ZERO]
    ensures ParseLong(s) == None
  {
    assert s[start..][0] == s[start];
    assert |s| == 1 ==> s == [s[0]];
  }

  lemma BadDigit(s: Bytes, start: nat, p: nat)
    requires DigitsFrom(s, start) && start <= p < |s| && !IsDigit(s[p])
    ensures ParseLong(s) == None
  {
    assert s[start..][p - start] == s[p];
    assert start == 0 ==> s[start..] == s;
  }

  lemma TooLarge(s: Bytes, start: nat, p: nat)
    requires DigitsFrom(s, start) && start <= p <= |s|
    requires AllDigits(s[start..p]) && Value(s[start..p]) > ULLONG_MAX
    ensures ParseLong(s) == None
  {
    var body := s[start..];
    assert start == 0 ==> body == s;
    assert body[..p - start] == s[start..p];
    if AllDigits(body) { ValueGrows(body, p - start); }
  }

  lemma Accepted(s: Bytes, start: nat, p: nat)
    requires DigitsFrom(s, start) && start < |s| == p && AllDigits(s[start..p]) && ZERO < s[start]
    ensures ParseLong(s) ==
      if start == 1 then if Value(s[start..p]) <= -LLONG_MIN then Some(0 - Value(s[start..p])) else None
      else if Value(s[start..p]) <= LLONG_MAX then Some(Value(s[start..p]) as int) else None
  {
    assert s[start..p] == s[start..];
    assert start == 0 ==> s[start..] == s;
    assert s[start..][0] == s[start];
  }

  // ---- the printers ----

  ghost function Pow10(k: nat): nat { if k == 0 then 1 else 10 * Pow10(k - 1) }

  /** The digit loop both printers share: least significant digit first. */
  method PrintReversed(s: array<Byte>, v0: nat, ghost room: nat) returns (p: nat)
    requires room <= s.Length && 0 < room <= 20 && v0 < Pow10(room)
    modifies s
    ensures 0 < p <= room && Reverse(s[..p]) == Dec(v0)
  {
    var v: nat := v0;
    p := 0;
    while true
      invariant 0 <= p < room && v < Pow10(room - p)
      invariant Dec(v0) == Dec(v) + Reverse(s[..p])
      decreases v
    {
      ghost var before := s[..p];
      s[p] := ZERO + v % 10;
      p := p + 1;
      assert s[..p] == before + [ZERO + v % 10];
      ReverseSnoc(before, ZERO + v % 10);
      if v < 10 { break; }
      assert Dec(v) == Dec(v / 10) + [ZERO + v % 10];
      assert Pow10(room - p + 1) == 10 * Pow10(room - p);
      v := v / 10;
    }
  }

  lemma {:induction false} ReverseSnoc(s: Bytes, b: Byte)
    ensures Reverse(s + [b]) == [b] + Reverse(s)
  {
    if s != [] {
      assert (s + [b])[1..] == s[1..] + [b];
      ReverseSnoc(s[1..], b);
    }
  }

  lemma {:induction false} ReverseAt(s: Bytes, k: nat)
    requires k < |s|
    ensures Reverse(s)[k] == s[|s| - 1 - k]
  {
    if k < |s| - 1 { ReverseAt(s[1..], k); }
  }

  /** The in-place reversal that ends both printers. */
  method ReverseInPlace(s: array<Byte>, l: nat)
    requires 0 < l <= s.Length
    modifies s
    ensures s[..l] == Reverse(old(s[..l]))
    ensures forall k :: l <= k < s.Length ==> s[k] == old(s[k])
  {
    var i, p := 0, l - 1;
    while i < p
      invariant 0 <= i <= l && p == l - 1 - i && i <= p + 1
      invariant forall k :: 0 <= k < i ==> s[k] == old(s[l - 1 - k]) && s[l - 1 - k] == old(s[k])
      invariant forall k :: i <= k < l - i ==> s[k] == old(s[k])
      invariant forall k :: l <= k < s.Length ==> s[k] == old(s[k])
    {
      s[i], s[p] := s[p], s[i];
      i := i + 1;
      p := p - 1;
    }
    ghost var was := old(s[..l]);
    forall k | 0 <= k < l ensures s[..l][k] == Reverse(was)[k] { ReverseAt(was, k); }
  }

  /** sdsll2str. Negating LLONG_MIN wraps to itself and converts to 2^63. */
  method LongLongToString(s: array<Byte>, value: int) returns (l: nat)
    requires s.Length == LLSTR_SIZE && IsInt64(value)
    modifies s
    ensures l < LLSTR_SIZE && s[..l] == DecInt(value) && s[l] == NUL
  {
    var v := if value < 0 then -value else value;
    Pow10Values();
    var p := PrintReversed(s, v, 19);
    if value < 0 {
      ghost var digits := s[..p];
      s[p] := MINUS;
      p := p + 1;
      assert s[..p] == digits + [MINUS];
      ReverseSnoc(digits, MINUS);
    }
    l := p;
    s[p] := NUL;
    ReverseInPlace(s, l);
  }

  /** sdsull2str. */
  method UnsignedToString(s: array<Byte>, v: nat) returns (l: nat)
    requires s.Length == LLSTR_SIZE && v < TWO_64
    modifies s
    ensures l < LLSTR_SIZE && s[..l] == Dec(v) && s[l] == NUL
  {
    Pow10Values();
    l := PrintReversed(s, v, 20);
    s[l] := NUL;
    ReverseInPlace(s, l);
  }

  lemma Pow10Values()
    ensures Pow10(19) == 10_000_000_000_000_000_000 && Pow10(20) == 100_000_000_000_000_000_000
  {
    assert Pow10(4) == 10_000;
    assert Pow10(8) == 100_000_000;
    assert Pow10(12) == 1_000_000_000_000;
    assert Pow10(16) == 10_000_000_000_000_000;
  }

  /** countDigits: four digits a turn, yet exactly the printed length. */
  method CountDigits(v0: nat) returns (result: nat)
    ensures result == |Dec(v0)|
  {
    var v: nat := v0;
    result := 1;
    while true
      invariant result >= 1 && |Dec(v0)| == |Dec(v)| + result - 1
      decreases v
    {
      if v < 10 { return result; }
      assert v < 100 ==> |Dec(v / 10)| == 1;
      if v < 100 { return result + 1; }
      assert v < 1000 ==> |Dec(v / 10 / 10)| == 1;
      if v < 1000 { return result + 2; }
      assert v < 10000 ==> |Dec(v / 10 / 10 / 10)| == 1;
      if v < 10000 { return result + 3; }
      FourDigits(v);
      v := v / 10000;
      result := result + 4;
    }
  }

  lemma FourDigits(v: nat)
    requires v >= 10000
    ensures |Dec(v)| == |Dec(v / 10000)| + 4
  {
    assert v / 10 / 10 / 10 / 10 == v / 10000;
    assert |Dec(v / 10 / 10)| == |Dec(v / 10 / 10 / 10)| + 1;
    assert |Dec(v / 10)| == |Dec(v / 10 / 10)| + 1;
  }
}
