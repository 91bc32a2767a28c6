/** Bytes, byte strings and the few shapes every other module shares. */
module Bytes {

  type Byte = b: int | 0 <= b < 256
  type Bytes = seq<Byte>

  datatype Option<+T> = None | Some(value: T)

  const NUL: Byte := 0
  const TAB: Byte := 9
  const LF: Byte := 10
  const CR: Byte := 13
  const SPACE: Byte := 32
  const DOLLAR: Byte := 36
  const PERCENT: Byte := 37
  const STAR: Byte := 42
  const PLUS: Byte := 43
  const MINUS: Byte := 45
  const ZERO: Byte := 48
  const NINE: Byte := 57
  const COLON: Byte := 58

  const CRLF: Bytes := [CR, LF]

  function Least(a: nat, b: nat): nat { if a < b then a else b }

  lemma Regroup<T>(a: seq<T>, b: seq<T>, c: seq<T>)
    ensures a + b + c == a + (b + c)
  {}

  /** All pieces, one after the other. */
  function Concat(pieces: seq<Bytes>): Bytes {
    if pieces == [] then [] else pieces[0] + Concat(pieces[1..])
  }

  lemma {:induction false} ConcatAppend(a: seq<Bytes>, b: seq<Bytes>)
    ensures Concat(a + b) == Concat(a) + Concat(b)
  {
    if a == [] {
      assert a + b == b;
    } else {
      assert (a + b)[1..] == a[1..] + b;
      ConcatAppend(a[1..], b);
    }
  }

  lemma ConcatSnoc(a: seq<Bytes>, x: Bytes)
    ensures Concat(a + [x]) == Concat(a) + x
  {
    ConcatAppend(a, [x]);
    assert [x][1..] == [];
  }

  function Reverse(s: Bytes): (r: Bytes)
    ensures |r| == |s|
  {
    if s == [] then [] else Reverse(s[1..]) + [s[0]]
  }

  /** A C string ends at its first NUL. */
  function UpToNul(s: Bytes): (r: Bytes)
    ensures |r| <= |s|
  {
    if s == [] || s[0] == NUL then [] else [s[0]] + UpToNul(s[1..])
  }

  /** It is the text that the terminator ends, whatever the memory holds behind it. */
  lemma {:induction false} Terminated(text: Bytes, after: Bytes)
    requires NUL !in text
    ensures UpToNul(text + [NUL] + after) == text == UpToNul(text)
  {
    var memory := text + [NUL] + after;
    if text != [] {
      Terminated(text[1..], after);
      assert memory[1..] == text[1..] + [NUL] + after;
    }
  }

  /** strlen. */
  method StrLen(s: Bytes) returns (n: nat)
    ensures n <= |s| && s[..n] == UpToNul(s)
    ensures NUL !in s[..n] && (n < |s| ==> s[n] == NUL)
  {
    n := 0;
    while n < |s| && s[n] != NUL
      invariant n <= |s| && s[..n] + UpToNul(s[n..]) == UpToNul(s)
      invariant NUL !in s[..n]
    {
      assert s[n..][1..] == s[n + 1..];
      assert s[..n] + [s[n]] == s[..n + 1];
      n := n + 1;
    }
    assert s[..n] + [] == s[..n];
  }

  /** isspace in the C locale. */
  predicate IsSpace(b: Byte) { b == SPACE || TAB <= b <= CR }

  /** The parts, with the separator between them. */
  function Join(parts: seq<Bytes>, sep: Bytes): Bytes {
    if parts == [] then []
    else if |parts| == 1 then parts[0]
    else parts[0] + sep + Join(parts[1..], sep)
  }
}
