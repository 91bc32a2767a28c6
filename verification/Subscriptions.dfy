/** Subscriptions (async.c): how commands and notices name them, and the counter that keeps
    an entry alive while the server still owes an acknowledgement for it. */
module Subscriptions {
  import opened Bytes
  import opened Resp
  import opened Callbacks

  // ---------- Words ----------

  const SUBSCRIBE: Bytes := [115, 117, 98, 115, 99, 114, 105, 98, 101]
  const UNSUBSCRIBE: Bytes := [117, 110] + SUBSCRIBE
  const MONITOR: Bytes := [109, 111, 110, 105, 116, 111, 114]
  const LETTER_P: Byte := 112

  function ToLower(b: Byte): Byte {
    if 65 <= b <= 90 then b + 32 else b
  }

  function Lower(s: Bytes): (r: Bytes)
    ensures |r| == |s|
  {
    if s == [] then [] else [ToLower(s[0])] + Lower(s[1..])
  }

  predicate PVariant(s: Bytes) {
    s != [] && ToLower(s[0]) == LETTER_P
  }

  function Stem(s: Bytes): Bytes {
    if PVariant(s) then s[1..] else s
  }

  /** strncasecmp with a word and a line end, on an argument that a line end follows. */
  predicate SpeltLike(arg: Bytes, word: Bytes) {
    word + CRLF <= Lower(arg + CRLF)
  }

  datatype Kind = Subscribing(pattern: bool, names: seq<Bytes>) | Unsubscribing | Monitoring | Other

  /** What a command with these arguments does to the subscription state. */
  function KindOf(argv: seq<Bytes>): Kind
    requires argv != []
  {
    var word := Stem(argv[0]);
    if |argv| > 1 && SpeltLike(word, SUBSCRIBE) then Subscribing(PVariant(argv[0]), argv[1..])
    else if SpeltLike(word, UNSUBSCRIBE) then Unsubscribing
    else if SpeltLike(word, MONITOR) then Monitoring
    else Other
  }

  lemma {:induction false} LowerFixed(s: Bytes)
    requires forall i :: 0 <= i < |s| ==> !(65 <= s[i] <= 90) && s[i] != NUL
    ensures Lower(s) == s && UpToNul(s) == s
  {
    if s != [] { LowerFixed(s[1..]); }
  }

  /** The plain subscribe command. */
  lemma SubscribeCommand(names: seq<Bytes>)
    requires names != []
    ensures KindOf([SUBSCRIBE] + names) == Subscribing(false, names)
  {
    LowerFixed(SUBSCRIBE + CRLF);
    assert ([SUBSCRIBE] + names)[1..] == names;
  }

  /** A message from the server in a subscribed context, if it has the shape that the code
      insists on. */
  datatype Notice = Misshapen | NoNotice | Notice(pattern: bool, word: Bytes, name: Bytes, left: Option<int>)

  function NoticeOf(reply: Reply): Notice {
    if !reply.Array? then NoNotice
    else if |reply.elems| < 2 || !reply.elems[0].Str? || !reply.elems[1].Str? then Misshapen
    else
      var stype := UpToNul(reply.elems[0].text);
      Notice(PVariant(stype), Lower(Stem(stype)), reply.elems[1].text,
             if |reply.elems| > 2 && reply.elems[2].Integer? then Some(reply.elems[2].value) else None)
  }

  // ---------- What is owed ----------

  datatype Name = Name(pattern: bool, text: Bytes)

  function Count(m: map<Name, nat>, n: Name): nat {
    if n in m then m[n] else 0
  }

  /** Subscribe requests sent and subscribe notices received, per name; `honest` as long as
      every notice was owed when it came. */
  datatype Ledger = Ledger(sent: map<Name, nat>, acked: map<Name, nat>, honest: bool) {
    function Owed(n: Name): int { Count(sent, n) - Count(acked, n) }

    function Send(n: Name): Ledger { this.(sent := sent[n := Count(sent, n) + 1]) }

    function SendAll(pattern: bool, names: seq<Bytes>): Ledger {
      if names == [] then this else SendAll(pattern, names[..|names| - 1]).Send(Name(pattern, names[|names| - 1]))
    }

    function Acknowledge(n: Name): Ledger {
      this.(acked := acked[n := Count(acked, n) + 1], honest := honest && Owed(n) > 0)
    }
  }

  type Table = map<Bytes, Callback>

  /** The two dictionaries of a context. */
  datatype Tables = Tables(channels: Table, patterns: Table) {
    function Get(pattern: bool): Table { if pattern then patterns else channels }

    function Set(pattern: bool, table: Table): Tables {
      if pattern then this.(patterns := table) else this.(channels := table)
    }
  }

  /** A subscribe notice takes one off the counter of its entry, if there is one. */
  function Counted(tables: Tables, n: Name, word: Bytes): Tables {
    var table := tables.Get(n.pattern);
    if word == SUBSCRIBE && n.text in table
    then tables.Set(n.pattern, table[n.text := table[n.text].(pendingSubs := table[n.text].pendingSubs - 1)])
    else tables
  }

  /** An unsubscribe notice takes away an entry whose counter is zero. */
  function Removed(tables: Tables, n: Name): Tables
    requires n.text in tables.Get(n.pattern)
  {
    var table := tables.Get(n.pattern);
    if table[n.text].pendingSubs == 0 then tables.Set(n.pattern, table - {n.text}) else tables
  }

  /** What is owed for a name is at most the counter of its entry, and nothing is owed for
      a name without an entry. */
  ghost predicate Covered(tables: Tables, ledger: Ledger, n: Name) {
    var table := tables.Get(n.pattern);
    && ledger.Owed(n) >= 0
    && ledger.Owed(n) <= if n.text in table then table[n.text].pendingSubs else 0
  }

  ghost predicate AllCovered(tables: Tables, ledger: Ledger) {
    ledger.honest ==> forall n: Name :: Covered(tables, ledger, n)
  }

  /** One name of a subscribe command: its counter grows by one, and is one or more. */
  lemma SendCovered(tables: Tables, ledger: Ledger, n: Name, cb: Callback)
    requires AllCovered(tables, ledger)
    requires var table := tables.Get(n.pattern);
      if n.text in table then cb.pendingSubs == table[n.text].pendingSubs + 1 else ledger.honest ==> cb.pendingSubs >= 1
    ensures AllCovered(tables.Set(n.pattern, tables.Get(n.pattern)[n.text := cb]), ledger.Send(n))
    ensures ledger.honest ==> cb.pendingSubs >= 1
  {
    assert ledger.honest ==> Covered(tables, ledger, n);
    var tables' := tables.Set(n.pattern, tables.Get(n.pattern)[n.text := cb]);
    forall m: Name | ledger.honest ensures Covered(tables', ledger.Send(n), m) {
      assert Covered(tables, ledger, m);
    }
  }

  lemma AcknowledgeCovered(tables: Tables, ledger: Ledger, n: Name)
    requires AllCovered(tables, ledger)
    ensures AllCovered(Counted(tables, n, SUBSCRIBE), ledger.Acknowledge(n))
  {
    var tables', ledger' := Counted(tables, n, SUBSCRIBE), ledger.Acknowledge(n);
    forall m: Name | ledger'.honest ensures Covered(tables', ledger', m) {
      assert Covered(tables, ledger, m) && Covered(tables, ledger, n);
    }
  }

  /** An entry whose counter is zero may go. */
  lemma RemoveCovered(tables: Tables, ledger: Ledger, n: Name)
    requires AllCovered(tables, ledger)
    requires n.text in tables.Get(n.pattern) && tables.Get(n.pattern)[n.text].pendingSubs == 0
    ensures AllCovered(tables.Set(n.pattern, tables.Get(n.pattern) - {n.text}), ledger)
    ensures ledger.honest ==> ledger.Owed(n) == 0
  {
    var tables' := tables.Set(n.pattern, tables.Get(n.pattern) - {n.text});
    forall m: Name | ledger.honest ensures Covered(tables', ledger, m) {
      assert Covered(tables, ledger, m);
    }
    assert ledger.honest ==> Covered(tables, ledger, n);
  }

  // ---------- A subscribe command with several names ----------

  datatype Carried = Carried(table: Table, cb: Callback) {
    function Next(n: Bytes): Carried {
      var next := if n in table then cb.(pendingSubs := table[n].pendingSubs + 1) else cb;
      Carried(table[n := next], next)
    }
  }

  /** What a subscribe command makes of a dictionary and of its own callback, whose counter
      carries over from one name to the next. */
  ghost function Carry(table: Table, cb: Callback, names: seq<Bytes>): Carried {
    if names == [] then Carried(table, cb)
    else Carry(table, cb, names[..|names| - 1]).Next(names[|names| - 1])
  }

  /** The named entries have this callback; the others are as they were. */
  ghost predicate Entered(was: Table, now: Table, names: seq<Bytes>, cb: Callback, n: Bytes) {
    if n in names then n in now && now[n].fn == cb.fn && now[n].privdata == cb.privdata
    else (n in now <==> n in was) && (n in now ==> now[n] == was[n])
  }

  lemma {:induction false} CarryEnters(table: Table, cb: Callback, names: seq<Bytes>, n: Bytes)
    ensures Entered(table, Carry(table, cb, names).table, names, cb, n)
    ensures Carry(table, cb, names).cb.fn == cb.fn && Carry(table, cb, names).cb.privdata == cb.privdata
  {
    if names != [] {
      CarryEnters(table, cb, names[..|names| - 1], n);
      assert names == names[..|names| - 1] + [names[|names| - 1]];
    }
  }

  /** A new name gets a counter of one or more, in every subscribe command, if and only if no
      entry has a counter below zero. */
  lemma CarryIff(table: Table, cb: Callback)
    requires cb.pendingSubs == 1
    ensures (forall names: seq<Bytes> :: NewCovered(table, cb, names))
      <==> forall n :: n in table ==> table[n].pendingSubs >= 0
  {
    if forall n :: n in table ==> table[n].pendingSubs >= 0 {
      forall names: seq<Bytes> ensures NewCovered(table, cb, names) { CarryCovers(table, cb, names); }
    } else {
      var n :| n in table && table[n].pendingSubs < 0;
      var b := FreshName(table.Keys);
      var none: seq<Bytes> := [];
      var one, two := [n], [n, b];
      assert two[..1] == one && one[..0] == none;
      assert Carry(table, cb, one) == Carry(table, cb, none).Next(n);
      assert Carry(table, cb, two) == Carry(table, cb, one).Next(b);
      assert b in two && !NewCovered(table, cb, two);
    }
  }

  ghost predicate NewCovered(table: Table, cb: Callback, names: seq<Bytes>) {
    var after := Carry(table, cb, names).table;
    forall n :: n in names && n !in table ==> n in after && after[n].pendingSubs >= 1
  }

  lemma {:induction false} CarryCovers(table: Table, cb: Callback, names: seq<Bytes>)
    requires cb.pendingSubs >= 1 && forall n :: n in table ==> table[n].pendingSubs >= 0
    ensures var c := Carry(table, cb, names);
      && c.cb.pendingSubs >= 1
      && (forall n :: n in c.table ==> c.table[n].pendingSubs >= 0)
      && (forall n :: n in names ==> n in c.table && c.table[n].pendingSubs >= 1)
  {
    if names != [] {
      var front, last := names[..|names| - 1], names[|names| - 1];
      CarryCovers(table, cb, front);
      assert names == front + [last];
    }
  }

  /** A name that is not among finitely many. */
  lemma {:induction false} FreshName(keys: set<Bytes>) returns (b: Bytes)
    ensures b !in keys && forall k :: k in keys ==> |k| < |b|
    decreases |keys|
  {
    if keys == {} {
      b := [NUL];
    } else {
      var k :| k in keys;
      b := FreshName(keys - {k});
      assert forall x :: x in keys ==> x == k || x in keys - {k};
      if |k| >= |b| { b := k + [NUL]; }
    }
  }

  /** A second notice for one request takes the counter of `a` down to -1. Subscribing to
      `a` and `b` then leaves `b` with a counter of 0, although a notice is owed for it: it
      takes a notice that was not owed to break the rule. */
  lemma UnowedNoticeUncovers(a: Bytes, b: Bytes, cb: Callback)
    requires a != b && cb.pendingSubs == 1
    ensures
      var x := Name(false, a);
      var ledger := Ledger(map[], map[], true).Send(x).Acknowledge(x).Acknowledge(x);
      var after := Carry(map[a := cb.(pendingSubs := -1)], cb, [a, b]).table;
      && !ledger.honest
      && b in after && after[b].pendingSubs == 0
      && ledger.SendAll(false, [a, b]).Owed(Name(false, b)) == 1
  {
    var x, none: seq<Bytes> := Name(false, a), [];
    var table: Table := map[a := cb.(pendingSubs := -1)];
    var one := [a];
    var two := [a, b];
    assert two[..1] == one && one[..0] == none;
    assert Carry(table, cb, one) == Carry(table, cb, none).Next(a);
    assert Carry(table, cb, two) == Carry(table, cb, one).Next(b);
    var ledger := Ledger(map[], map[], true).Send(x).Acknowledge(x).Acknowledge(x);
    assert ledger.SendAll(false, one) == ledger.SendAll(false, none).Send(x) == ledger.Send(x);
    assert ledger.SendAll(false, two) == ledger.Send(x).Send(Name(false, b));
  }

  // ---------- What servers send ----------

  const MESSAGE: Bytes := [109, 101, 115, 115, 97, 103, 101]

  function MessageOn(name: Bytes, text: Bytes): Reply { Array([Str(MESSAGE), Str(name), Str(text)]) }

  function SubscribeNotice(name: Bytes, count: int): Reply { NoticeReply(false, SUBSCRIBE, name, count) }

  /** A notice for a channel or, with a p in front of the word, for a pattern. */
  function NoticeReply(pattern: bool, word: Bytes, name: Bytes, count: int): Reply {
    Array([Str(if pattern then [LETTER_P] + word else word), Str(name), Integer(count)])
  }

  lemma NoticeReplyReads(pattern: bool, word: Bytes, name: Bytes, count: int)
    requires word == SUBSCRIBE || word == UNSUBSCRIBE
    ensures NoticeOf(NoticeReply(pattern, word, name, count)) == Notice(pattern, word, name, Some(count))
  {
    hide Lower, UpToNul;
    var text := if pattern then [LETTER_P] + word else word;
    LowerFixed(text);
    LowerFixed(word);
    assert text[1..] == word || !pattern;
    var elems := [Str(text), Str(name), Integer(count)];
    assert elems[0] == Str(text) && elems[1] == Str(name) && elems[2] == Integer(count);
  }

  lemma NoticesRead(name: Bytes, text: Bytes, count: int)
    ensures NoticeOf(MessageOn(name, text)) == Notice(false, MESSAGE, name, None)
    ensures NoticeOf(SubscribeNotice(name, count)) == Notice(false, SUBSCRIBE, name, Some(count))
  {
    hide Lower, UpToNul, NoticeOf;
    PlainNotice(MESSAGE, name, Str(text));
    NoticeReplyReads(false, SUBSCRIBE, name, count);
  }

  lemma PlainNotice(word: Bytes, name: Bytes, third: Reply)
    requires word != [] && forall i :: 0 <= i < |word| ==> 97 <= word[i] <= 122
    requires word[0] != LETTER_P
    ensures NoticeOf(Array([Str(word), Str(name), third]))
      == Notice(false, word, name, if third.Integer? then Some(third.value) else None)
  {
    hide Lower, UpToNul;
    LowerFixed(word);
    var elems := [Str(word), Str(name), third];
    assert elems[0] == Str(word) && elems[1] == Str(name) && elems[2] == third;
  }
}
