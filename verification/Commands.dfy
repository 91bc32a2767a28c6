/** Commands on their way out (hiredis.c): an argument vector becomes an array of
    bulk strings, in a buffer whose exact size is computed first. */
module Commands {
  import opened Bytes
  import opened Numbers
  import opened Resp

  /** A command is the reply array of its arguments. */
  ghost function Strs(argv: seq<Bytes>): (vs: seq<Reply>)
    ensures |vs| == |argv| && forall i :: 0 <= i < |argv| ==> vs[i] == Str(argv[i])
  {
    seq(|argv|, i requires 0 <= i < |argv| => Str(argv[i]))
  }

  ghost function Wire(argv: seq<Bytes>): Bytes { Encode(Array(Strs(argv))) }

  ghost function NumberLineOf(prefix: Byte, n: nat): Bytes { [prefix] + Dec(n) + CRLF }

  ghost function Bulk(arg: Bytes): Bytes { NumberLineOf(DOLLAR, |arg|) + arg + CRLF }

  ghost function Bulks(argv: seq<Bytes>): Bytes {
    if argv == [] then [] else Bulks(argv[..|argv| - 1]) + Bulk(argv[|argv| - 1])
  }

  lemma {:induction false} EncodeAllSnoc(vs: seq<Reply>, v: Reply)
    ensures EncodeAll(vs + [v]) == EncodeAll(vs) + Encode(v)
  {
    if vs == [] {
      assert EncodeAll([v]) == Encode(v) + EncodeAll([v][1..]);
    } else {
      assert (vs + [v])[1..] == vs[1..] + [v];
      EncodeAllSnoc(vs[1..], v);
    }
  }

  lemma {:induction false} BulksAreReplies(argv: seq<Bytes>)
    ensures Bulks(argv) == EncodeAll(Strs(argv))
  {
    if argv != [] {
      var front, arg := argv[..|argv| - 1], argv[|argv| - 1];
      BulksAreReplies(front);
      assert Strs(argv) == Strs(front) + [Str(arg)];
      EncodeAllSnoc(Strs(front), Str(arg));
      assert Bulk(arg) == Encode(Str(arg));
    }
  }

  lemma WireIsBulks(argv: seq<Bytes>)
    ensures Wire(argv) == NumberLineOf(STAR, |argv|) + Bulks(argv)
  {
    BulksAreReplies(argv);
    ArrayBytes(Strs(argv));
  }

  lemma ArrayBytes(vs: seq<Reply>)
    ensures Encode(Array(vs)) == NumberLineOf(STAR, |vs|) + EncodeAll(vs)
  {
    hide Dec, EncodeAll;
    assert Body(Array(vs)) == Dec(|vs|) + CRLF + EncodeAll(vs);
    InFront([STAR], Dec(|vs|), CRLF, EncodeAll(vs));
  }

  lemma InFront(a: Bytes, b: Bytes, c: Bytes, d: Bytes)
    ensures a + (b + c + d) == a + b + c + d
  {
  }

  /** bulklen. */
  method BulkLen(len: nat) returns (r: nat)
    ensures forall arg: Bytes :: |arg| == len ==> r == |Bulk(arg)|
  {
    var digits := CountDigits(len);
    r := 1 + digits + 2 + len + 2;
  }

  /** The size both formatters compute in advance. */
  method CommandSize(argv: seq<Bytes>) returns (totlen: nat)
    ensures totlen == |Wire(argv)|
  {
    var digits := CountDigits(|argv|);
    totlen := 1 + digits + 2;
    for j := 0 to |argv|
      invariant totlen == |NumberLineOf(STAR, |argv|) + Bulks(argv[..j])|
    {
      var len := BulkLen(|argv[j]|);
      totlen := totlen + len;
      assert argv[..j + 1][..j] == argv[..j];
    }
    assert argv[..|argv|] == argv;
    WireIsBulks(argv);
  }

  /** A store of consecutive bytes, as memcpy and sprintf make it. */
  method Put(cmd: array<Byte>, pos: nat, s: Bytes)
    requires pos + |s| <= cmd.Length
    modifies cmd
    ensures cmd[..pos + |s|] == old(cmd[..pos]) + s
  {
    forall i | 0 <= i < |s| { cmd[pos + i] := s[i]; }
  }

  /** The digits of a length or count, as sprintf prints them. */
  method PutNumberLine(cmd: array<Byte>, pos: nat, prefix: Byte, n: nat) returns (pos': nat)
    requires n < TWO_64 && pos + |NumberLineOf(prefix, n)| < cmd.Length
    modifies cmd
    ensures pos' == pos + |NumberLineOf(prefix, n)|
    ensures cmd[..pos'] == old(cmd[..pos]) + NumberLineOf(prefix, n)
  {
    var digits := new Byte[LLSTR_SIZE](_ => NUL);
    var l := UnsignedToString(digits, n);
    Put(cmd, pos, [prefix] + digits[..l] + CRLF + [NUL]);
    pos' := pos + 1 + l + 2;
    assert cmd[..pos'] == cmd[..pos' + 1][..pos'];
  }

  /** One argument: its length line, its bytes, and the line end. */
  method PutBulk(cmd: array<Byte>, pos: nat, arg: Bytes) returns (pos': nat)
    requires |arg| < TWO_64 && pos + |Bulk(arg)| < cmd.Length
    modifies cmd
    ensures pos' == pos + |Bulk(arg)| && cmd[..pos'] == old(cmd[..pos]) + Bulk(arg)
  {
    pos' := PutNumberLine(cmd, pos, DOLLAR, |arg|);
    Put(cmd, pos', arg);
    pos' := pos' + |arg|;
    Put(cmd, pos', CRLF);
    pos' := pos' + 2;
  }

  /** The second half of both formatters: the bytes fill the buffer exactly. */
  method Build(argv: seq<Bytes>, totlen: nat) returns (cmd: array<Byte>)
    requires totlen == |Wire(argv)| < TWO_64
    ensures fresh(cmd) && cmd.Length == totlen + 1
    ensures cmd[..totlen] == Wire(argv) && cmd[totlen] == NUL
  {
    hide Bulks, Bulk, NumberLineOf;
    WireIsBulks(argv);
    CountFits(argv);
    cmd := new Byte[totlen + 1](_ => NUL);
    var pos := PutNumberLine(cmd, 0, STAR, |argv|);
    ghost var head := NumberLineOf(STAR, |argv|);
    NoBulks(argv);
    for j := 0 to |argv|
      invariant pos == |head + Bulks(argv[..j])| <= cmd.Length && cmd[..pos] == head + Bulks(argv[..j])
    {
      NextBulk(argv, j);
      assert head + (Bulks(argv[..j]) + Bulk(argv[j])) == head + Bulks(argv[..j]) + Bulk(argv[j]);
      pos := PutBulk(cmd, pos, argv[j]);
    }
    assert argv[..|argv|] == argv;
    assert pos == totlen;
    cmd[pos] := NUL;
  }

  lemma NoBulks(argv: seq<Bytes>)
    ensures Bulks(argv[..0]) == []
  {
  }

  lemma NextBulk(argv: seq<Bytes>, j: nat)
    requires j < |argv|
    ensures Bulks(argv[..j + 1]) == Bulks(argv[..j]) + Bulk(argv[j])
    ensures |Bulks(argv[..j + 1])| <= |Bulks(argv)| && |argv[j]| < |Bulk(argv[j])|
  {
    assert argv[..j + 1][..j] == argv[..j];
    BulksGrow(argv, j + 1);
  }

  lemma {:induction false} BulksFront(argv: seq<Bytes>)
    requires argv != []
    ensures Bulks(argv) == Bulk(argv[0]) + Bulks(argv[1..])
  {
    hide Bulk;
    var front, last := argv[..|argv| - 1], argv[|argv| - 1];
    if front != [] {
      BulksFront(front);
      assert argv[1..][..|argv| - 2] == front[1..];
    } else {
      assert argv[1..] == [] && Bulks(front) == [];
    }
  }

  lemma {:induction false} BulksGrow(argv: seq<Bytes>, j: nat)
    requires j <= |argv|
    ensures |Bulks(argv[..j])| <= |Bulks(argv)|
    decreases |argv|
  {
    if j == |argv| {
      assert argv[..j] == argv;
    } else {
      assert argv[..|argv| - 1][..j] == argv[..j];
      BulksGrow(argv[..|argv| - 1], j);
    }
  }

  lemma {:induction false} CountFits(argv: seq<Bytes>)
    ensures |argv| <= |Bulks(argv)|
  {
    if argv != [] { CountFits(argv[..|argv| - 1]); }
  }

  /** redisFormatCommandArgv. */
  method FormatCommandArgv(argv: seq<Bytes>) returns (cmd: array<Byte>, totlen: nat)
    requires |Wire(argv)| <= INT_MAX
    ensures fresh(cmd) && cmd.Length == totlen + 1
    ensures cmd[..totlen] == Wire(argv) && cmd[totlen] == NUL
  {
    totlen := CommandSize(argv);
    cmd := Build(argv, totlen);
  }

  // ---- many commands, one after the other ----

  ghost function AsReplies(cmds: seq<seq<Bytes>>): (vs: seq<Reply>)
    ensures |vs| == |cmds| && forall i :: 0 <= i < |cmds| ==> vs[i] == Array(Strs(cmds[i]))
  {
    seq(|cmds|, i requires 0 <= i < |cmds| => Array(Strs(cmds[i])))
  }

  ghost function WireAll(cmds: seq<seq<Bytes>>): Bytes { EncodeAll(AsReplies(cmds)) }

  /** Counts and lengths the protocol's numbers can carry. */
  ghost predicate Carriable(cmds: seq<seq<Bytes>>) {
    forall i :: 0 <= i < |cmds| ==> |Wire(cmds[i])| <= INT_MAX
  }

  lemma CarriableSendable(cmds: seq<seq<Bytes>>)
    requires Carriable(cmds)
    ensures forall i :: 0 <= i < |cmds| ==> Sendable(AsReplies(cmds)[i], 0)
  {
    forall i | 0 <= i < |cmds| ensures Sendable(AsReplies(cmds)[i], 0) {
      var argv := cmds[i];
      WireIsBulks(argv);
      CountFits(argv);
      forall j | 0 <= j < |argv| ensures Sendable(Str(argv[j]), 1) { NextBulk(argv, j); BulkFits(argv, j); }
    }
  }

  lemma BulkFits(argv: seq<Bytes>, j: nat)
    requires j < |argv|
    ensures |argv[j]| <= |Bulks(argv)|
  {
    NextBulk(argv, j);
  }

  /** A reader of the whole stream gets the argument vectors, in order, and no more. */
  lemma WireAllReads(cmds: seq<seq<Bytes>>)
    requires Carriable(cmds)
    ensures ReadAll(WireAll(cmds)) == Stream(AsReplies(cmds), None)
  {
    CarriableSendable(cmds);
    StreamRoundTrip(AsReplies(cmds), []);
    assert WireAll(cmds) + [] == WireAll(cmds);
    assert AsReplies(cmds) + [] == AsReplies(cmds);
  }

  lemma WireAllSnoc(cmds: seq<seq<Bytes>>, argv: seq<Bytes>)
    ensures WireAll(cmds + [argv]) == WireAll(cmds) + Wire(argv)
  {
    EncodeAllSnoc(AsReplies(cmds), Array(Strs(argv)));
    assert AsReplies(cmds + [argv]) == AsReplies(cmds) + [Array(Strs(argv))];
  }

  /** A reader of any first part of the stream has whole commands in order, and has seen no
      error. */
  lemma PrefixReads(cmds: seq<seq<Bytes>>, front: Bytes, rest: Bytes)
    requires Carriable(cmds) && front + rest == WireAll(cmds)
    ensures ReadAll(front).replies <= AsReplies(cmds) && ReadAll(front).error == None
  {
    WireAllReads(cmds);
    ReadAllMonotone(front, rest);
  }
}
