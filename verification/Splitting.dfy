/** Splitting at a separator and joining again (sdssplitlen, sdsjoinsds). */
module Splitting {
  import opened Bytes
  import opened Sds

  predicate OccursAt(s: Bytes, sep: Bytes, i: nat) { i + |sep| <= |s| && s[i..i + |sep|] == sep }

  ghost predicate Contains(s: Bytes, sep: Bytes) { exists i: nat :: OccursAt(s, sep, i) }

  /** Where the separator first occurs. */
  function Find(s: Bytes, sep: Bytes): (r: Option<nat>)
    requires sep != []
    ensures r.Some? ==> OccursAt(s, sep, r.value)
    ensures forall i: nat {:trigger OccursAt(s, sep, i)} :: OccursAt(s, sep, i) ==> r.Some? && r.value <= i
  {
    if |s| < |sep| then None
    else if OccursAt(s, sep, 0) then Some(0)
    else
      assert forall i: nat {:trigger OccursAt(s, sep, i)} :: OccursAt(s, sep, i) ==> i > 0 && OccursAt(s[1..], sep, i - 1) by {
        forall i: nat | OccursAt(s, sep, i) ensures i > 0 && OccursAt(s[1..], sep, i - 1) {
          assert i > 0 ==> s[1..][i - 1..i - 1 + |sep|] == s[i..i + |sep|];
        }
      }
      match Find(s[1..], sep) case None => None case Some(k) =>
        assert s[1..][k..k + |sep|] == s[k + 1..k + 1 + |sep|];
        Some(k + 1)
  }

  /** The tokens around the leftmost, then next leftmost, separators. */
  function Tokens(s: Bytes, sep: Bytes): (ts: seq<Bytes>)
    requires sep != []
    ensures ts != []
    decreases |s|
  {
    match Find(s, sep)
    case None => [s]
    case Some(k) => [s[..k]] + Tokens(s[k + |sep|..], sep)
  }

  /** An empty string has no tokens. */
  function Split(s: Bytes, sep: Bytes): seq<Bytes>
    requires sep != []
  {
    if s == [] then [] else Tokens(s, sep)
  }

  /** sdssplitlen; None for an empty separator. */
  method SplitLen(s: Bytes, sep: Bytes) returns (r: Option<seq<Bytes>>)
    ensures r == if sep == [] then None else Some(Split(s, sep))
  {
    hide Tokens;
    if |sep| < 1 { return None; }
    if |s| == 0 { return Some([]); }
    var tokens: seq<Bytes> := [];
    var start, j := 0, 0;
    assert s[0..] == s;
    while j < |s| - (|sep| - 1)
      invariant 0 <= start <= j && start <= |s| && (j <= |s| - (|sep| - 1) || start == j)
      invariant forall i: nat {:trigger OccursAt(s, sep, i)} :: start <= i < j ==> !OccursAt(s, sep, i)
      invariant tokens + Tokens(s[start..], sep) == Tokens(s, sep)
    {
      if s[j..j + |sep|] == sep {
        FoundAt(s, sep, start, j);
        tokens := tokens + [s[start..j]];
        start := j + |sep|;
        j := j + |sep| - 1;
      }
      j := j + 1;
    }
    NoneFrom(s, sep, start);
    return Some(tokens + [s[start..]]);
  }

  lemma Shifted(s: Bytes, sep: Bytes, start: nat, i: nat)
    requires start <= |s|
    ensures OccursAt(s[start..], sep, i) <==> OccursAt(s, sep, start + i)
  {
    if start + i + |sep| <= |s| { assert s[start..][i..i + |sep|] == s[start + i..start + i + |sep|]; }
  }

  lemma TokensFrom(t: Bytes, sep: Bytes, k: nat, first: Bytes, rest: Bytes)
    requires sep != [] && Find(t, sep) == Some(k)
    requires first == t[..k] && rest == t[k + |sep|..]
    ensures Tokens(t, sep) == [first] + Tokens(rest, sep)
  {
  }

  lemma FoundAt(s: Bytes, sep: Bytes, start: nat, j: nat)
    requires sep != [] && start <= j <= |s| - |sep| && OccursAt(s, sep, j)
    requires forall i: nat {:trigger OccursAt(s, sep, i)} :: start <= i < j ==> !OccursAt(s, sep, i)
    ensures Tokens(s[start..], sep) == [s[start..j]] + Tokens(s[j + |sep|..], sep)
  {
    hide *;
    FirstAt(s, sep, start, j);
    Slices(s, start, j, |sep|);
    TokensFrom(s[start..], sep, j - start, s[start..j], s[j + |sep|..]);
  }

  lemma Slices(s: Bytes, start: nat, j: nat, n: nat)
    requires start <= j <= |s| - n
    ensures s[start..][..j - start] == s[start..j] && s[start..][j - start + n..] == s[j + n..]
  {
  }

  lemma FirstAt(s: Bytes, sep: Bytes, start: nat, j: nat)
    requires sep != [] && start <= j <= |s| - |sep| && OccursAt(s, sep, j)
    requires forall i: nat {:trigger OccursAt(s, sep, i)} :: start <= i < j ==> !OccursAt(s, sep, i)
    ensures Find(s[start..], sep) == Some(j - start)
  {
    hide Find, OccursAt;
    var t := s[start..];
    Shifted(s, sep, start, j - start);
    assert OccursAt(t, sep, j - start);
    var k := Find(t, sep).value;
    Shifted(s, sep, start, k);
  }

  lemma NoneFrom(s: Bytes, sep: Bytes, start: nat)
    requires sep != [] && start <= |s|
    requires forall i: nat {:trigger OccursAt(s, sep, i)} :: start <= i < |s| - (|sep| - 1) ==> !OccursAt(s, sep, i)
    ensures Tokens(s[start..], sep) == [s[start..]]
  {
    hide Find;
    var t := s[start..];
    if Find(t, sep).Some? { Shifted(s, sep, start, Find(t, sep).value); }
  }

  /** sdsjoinsds. */
  method JoinSds(argv: seq<Bytes>, sep: Bytes) returns (join: SdsString)
    ensures join.bytes == Join(argv, sep)
  {
    join := Empty();
    for j := 0 to |argv|
      invariant join.bytes == if j == 0 || j == |argv| then Join(argv[..j], sep) else Join(argv[..j], sep) + sep
    {
      JoinSnoc(argv[..j], argv[j], sep);
      assert argv[..j + 1] == argv[..j] + [argv[j]];
      join := CatLen(join, argv[j]);
      if j != |argv| - 1 { join := CatLen(join, sep); }
    }
    assert argv[..|argv|] == argv;
  }

  lemma {:induction false} JoinSnoc(ts: seq<Bytes>, t: Bytes, sep: Bytes)
    ensures Join(ts + [t], sep) == if ts == [] then t else Join(ts, sep) + sep + t
  {
    if |ts| > 1 {
      JoinSnoc(ts[1..], t, sep);
      assert (ts + [t])[1..] == ts[1..] + [t];
    } else if |ts| == 1 {
      assert (ts + [t])[1..] == [t];
    }
  }

  /** Joining the tokens of a string with the separator restores the string. */
  lemma {:induction false} JoinRestores(s: Bytes, sep: Bytes)
    requires sep != []
    ensures Join(Split(s, sep), sep) == s
  {
    if s != [] { JoinTokens(s, sep); }
  }

  lemma {:induction false} JoinTokens(s: Bytes, sep: Bytes)
    requires sep != []
    ensures Join(Tokens(s, sep), sep) == s
    decreases |s|
  {
    match Find(s, sep)
    case None =>
    case Some(k) =>
      var more := Tokens(s[k + |sep|..], sep);
      JoinTokens(s[k + |sep|..], sep);
      assert Tokens(s, sep)[1..] == more;
      assert s == s[..k] + s[k..k + |sep|] + s[k + |sep|..];
  }

  /** No token contains the separator. */
  lemma {:induction false} TokensClean(s: Bytes, sep: Bytes)
    requires sep != []
    ensures forall t :: t in Tokens(s, sep) ==> !Contains(t, sep)
    decreases |s|
  {
    match Find(s, sep)
    case None =>
    case Some(k) =>
      TokensClean(s[k + |sep|..], sep);
      var t := s[..k];
      forall i: nat ensures !OccursAt(t, sep, i) {
        if OccursAt(t, sep, i) {
          assert t[i..i + |sep|] == s[i..i + |sep|];
          assert OccursAt(s, sep, i);
        }
      }
  }

  /** With a one-byte separator, splitting undoes joining exactly when no part contains
      the separator and the parts are not a single empty one. */
  lemma SplitUndoesJoinIff(ts: seq<Bytes>, c: Byte)
    ensures Split(Join(ts, [c]), [c]) == ts <==> ts != [[]] && forall t :: t in ts ==> c !in t
  {
    var s := Join(ts, [c]);
    if Split(s, [c]) == ts {
      TokensClean(s, [c]);
      forall t | t in ts ensures c !in t { CleanByte(t, c); }
    }
    if ts != [[]] && forall t :: t in ts ==> c !in t {
      if ts != [] {
        TokensOfJoin(ts, c);
        if s == [] { EmptyJoin(ts, c); }
      }
    }
  }

  lemma CleanByte(t: Bytes, c: Byte)
    ensures !Contains(t, [c]) <==> c !in t
  {
    if c in t {
      var i :| 0 <= i < |t| && t[i] == c;
      assert t[i..i + 1] == [c];
      assert OccursAt(t, [c], i);
    }
    if Contains(t, [c]) {
      var i: nat :| OccursAt(t, [c], i);
      assert t[i] == t[i..i + 1][0];
    }
  }

  lemma EmptyJoin(ts: seq<Bytes>, c: Byte)
    requires ts != [] && Join(ts, [c]) == []
    ensures ts == [[]]
  {
  }

  lemma {:induction false} TokensOfJoin(ts: seq<Bytes>, c: Byte)
    requires ts != [] && forall t :: t in ts ==> c !in t
    ensures Tokens(Join(ts, [c]), [c]) == ts
  {
    var s, t := Join(ts, [c]), ts[0];
    CleanByte(t, c);
    if |ts| == 1 {
      assert forall i: nat {:trigger OccursAt(s, [c], i)} :: !OccursAt(s, [c], i);
    } else {
      TokensOfJoin(ts[1..], c);
      var k := |t|;
      assert s[k..k + 1] == [c] && OccursAt(s, [c], k);
      forall i: nat | i < k ensures !OccursAt(s, [c], i) {
        assert s[i] == t[i] && s[i..i + 1] == [s[i]];
      }
      assert Find(s, [c]) == Some(k);
      assert s[..k] == t && s[k + 1..] == Join(ts[1..], [c]);
      assert [t] + ts[1..] == ts;
    }
  }
}
