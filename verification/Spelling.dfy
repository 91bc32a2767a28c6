/** How commands and notices are spelt (async.c): letter by letter, in upper or lower case. */
module Spelling {
  import opened Bytes
  import opened Resp
  import opened AsyncHistory
  import opened Subscriptions
  import opened Dispatching

  function Ascii(word: string): (r: Bytes)
    ensures |r| == |word| && forall i :: 0 <= i < |r| ==> r[i] == word[i] as int % 256
  {
    seq(|word|, i requires 0 <= i < |word| => word[i] as int % 256)
  }

  predicate SmallLetters(w: Bytes) { forall i :: 0 <= i < |w| ==> 97 <= w[i] <= 122 }

  /** The small letter or the capital one. */
  predicate IsLetter(b: Byte, letter: Byte) { b == letter || b == letter - 32 }

  ghost predicate Spells(s: Bytes, w: Bytes) {
    |s| == |w| && forall i :: 0 <= i < |w| ==> IsLetter(s[i], w[i])
  }

  /** The argument is the word, or goes on with a line end behind it: the code compares with
      the word and a line end, and does not look at the length. */
  ghost predicate Reads(arg: Bytes, w: Bytes) {
    && |arg| >= |w| && (forall i :: 0 <= i < |w| ==> IsLetter(arg[i], w[i]))
    && (|arg| == |w| || (|arg| >= |w| + 2 && arg[|w|] == 13 && arg[|w| + 1] == 10))
  }

  lemma {:induction false} LowerAt(s: Bytes, i: nat)
    requires i < |s|
    ensures Lower(s)[i] == ToLower(s[i])
  {
    if i > 0 { LowerAt(s[1..], i - 1); }
  }

  lemma LowerIs(s: Bytes, i: nat, letter: Byte)
    requires i < |s| && 97 <= letter <= 122
    ensures Lower(s)[i] == letter <==> IsLetter(s[i], letter)
    ensures Lower(s)[i] == 13 <==> s[i] == 13
    ensures Lower(s)[i] == 10 <==> s[i] == 10
  {
    LowerAt(s, i);
  }

  lemma SpeltIff(arg: Bytes, w: Bytes)
    requires SmallLetters(w)
    ensures SpeltLike(arg, w) <==> Reads(arg, w)
  {
    hide Lower;
    var line, word := arg + CRLF, w + CRLF;
    forall i | 0 <= i < |w| && i < |line| ensures Lower(line)[i] == word[i] <==> IsLetter(line[i], w[i]) {
      LowerIs(line, i, w[i]);
    }
    forall i | |w| <= i < |word| && i < |line| ensures Lower(line)[i] == word[i] <==> line[i] == word[i] {
      LowerIs(line, i, 97);
    }
    assert SpeltLike(arg, w) <==> |word| <= |line| && forall i :: 0 <= i < |word| ==> Lower(line)[i] == word[i];
    if Reads(arg, w) {
      assert forall i :: 0 <= i < |w| ==> line[i] == arg[i];
      assert line[|w|] == 13 && line[|w| + 1] == 10;
    }
    if SpeltLike(arg, w) {
      assert line[|w|] == word[|w|] == 13 && line[|w| + 1] == word[|w| + 1] == 10;
      assert forall i :: 0 <= i < |w| ==> line[i] != 13 && Lower(line)[i] == word[i] == w[i];
    }
  }

  /** The same word with a p in front. */
  lemma StemReads(arg: Bytes, w: Bytes, p: Bytes)
    requires SmallLetters(w) && w != [] && w[0] != 112 && p == [112] + w
    ensures SpeltLike(Stem(arg), w) <==> Reads(arg, w) || Reads(arg, p)
    ensures Reads(arg, w) ==> !PVariant(arg)
    ensures Reads(arg, p) ==> PVariant(arg)
  {
    hide SpeltLike;
    SpeltIff(Stem(arg), w);
    if arg != [] && PVariant(arg) {
      assert forall i :: 0 <= i < |w| ==> p[i + 1] == w[i];
      assert forall i :: 0 < i < |arg| ==> arg[i] == arg[1..][i - 1];
      assert forall i :: 0 <= i < |arg[1..]| ==> arg[1..][i] == arg[i + 1];
    }
  }

  lemma Spelt()
    ensures SUBSCRIBE == Ascii("subscribe") && [112] + SUBSCRIBE == Ascii("psubscribe")
    ensures UNSUBSCRIBE == Ascii("unsubscribe") && [112] + UNSUBSCRIBE == Ascii("punsubscribe")
    ensures MONITOR == Ascii("monitor") && [112] + MONITOR == Ascii("pmonitor")
    ensures SmallLetters(SUBSCRIBE) && SmallLetters(UNSUBSCRIBE) && SmallLetters(MONITOR)
  {
    hide SmallLetters, Ascii;
    Letters();
    SubscribeSpelt();
    UnsubscribeSpelt();
    MonitorSpelt();
  }

  lemma Letters()
    ensures SmallLetters(SUBSCRIBE) && SmallLetters(UNSUBSCRIBE) && SmallLetters(MONITOR)
  {}

  lemma SubscribeSpelt()
    ensures SUBSCRIBE == Ascii("subscribe") && [112] + SUBSCRIBE == Ascii("psubscribe")
  {}

  lemma UnsubscribeSpelt()
    ensures UNSUBSCRIBE == Ascii("unsubscribe") && [112] + UNSUBSCRIBE == Ascii("punsubscribe")
  {}

  lemma MonitorSpelt()
    ensures MONITOR == Ascii("monitor") && [112] + MONITOR == Ascii("pmonitor")
  {}

  /** A first argument reads as at most one of the words. */
  lemma Apart(arg: Bytes, v: Bytes, w: Bytes)
    requires v != [] && w != [] && v[0] != w[0] && 97 <= v[0] <= 122 && 97 <= w[0] <= 122
    ensures !(Reads(arg, v) && Reads(arg, w))
  {}

  /** What a command is, for every spelling. "pmonitor" is taken for "monitor", and a
      subscribe command without names for any other command. */
  lemma KindIff(argv: seq<Bytes>)
    requires argv != []
    ensures var arg := argv[0];
      && (|argv| > 1 && Reads(arg, Ascii("subscribe")) ==> KindOf(argv) == Subscribing(false, argv[1..]))
      && (|argv| > 1 && Reads(arg, Ascii("psubscribe")) ==> KindOf(argv) == Subscribing(true, argv[1..]))
      && (Reads(arg, Ascii("unsubscribe")) || Reads(arg, Ascii("punsubscribe")) ==> KindOf(argv) == Unsubscribing)
      && (Reads(arg, Ascii("monitor")) || Reads(arg, Ascii("pmonitor")) ==> KindOf(argv) == Monitoring)
      && (KindOf(argv) == Other <==>
            && !Reads(arg, Ascii("unsubscribe")) && !Reads(arg, Ascii("punsubscribe"))
            && !Reads(arg, Ascii("monitor")) && !Reads(arg, Ascii("pmonitor"))
            && (|argv| == 1 || (!Reads(arg, Ascii("subscribe")) && !Reads(arg, Ascii("psubscribe")))))
  {
    hide SpeltLike, Stem, PVariant, Reads, Ascii, SmallLetters;
    var arg := argv[0];
    Spelt();
    StemReads(arg, SUBSCRIBE, [112] + SUBSCRIBE);
    StemReads(arg, UNSUBSCRIBE, [112] + UNSUBSCRIBE);
    StemReads(arg, MONITOR, [112] + MONITOR);
    Separate(arg);
  }

  lemma Separate(arg: Bytes)
    ensures var s, u, m := SpeltLike(Stem(arg), SUBSCRIBE), SpeltLike(Stem(arg), UNSUBSCRIBE), SpeltLike(Stem(arg), MONITOR);
      !(s && u) && !(s && m) && !(u && m)
  {
    hide SpeltLike, Stem;
    var word := Stem(arg);
    Spelt();
    SpeltIff(word, SUBSCRIBE);
    SpeltIff(word, UNSUBSCRIBE);
    SpeltIff(word, MONITOR);
    Apart(word, SUBSCRIBE, UNSUBSCRIBE);
    Apart(word, SUBSCRIBE, MONITOR);
    Apart(word, UNSUBSCRIBE, MONITOR);
  }

  /** The plain case: the argument is nothing but the word. */
  lemma SpellsReads(arg: Bytes, w: Bytes)
    requires Spells(arg, w)
    ensures Reads(arg, w)
  {}

  // ---------- Notices ----------

  lemma LowerSpells(s: Bytes, w: Bytes)
    requires SmallLetters(w)
    ensures Lower(s) == w <==> Spells(s, w)
  {
    hide Lower;
    forall i | 0 <= i < |w| && i < |s| ensures Lower(s)[i] == w[i] <==> IsLetter(s[i], w[i]) {
      LowerIs(s, i, w[i]);
    }
  }

  lemma LowerStem(s: Bytes, w: Bytes, p: Bytes)
    requires SmallLetters(w) && w != [] && w[0] != 112 && p == [112] + w
    ensures Lower(Stem(s)) == w <==> Spells(s, w) || Spells(s, p)
  {
    hide Lower;
    LowerSpells(Stem(s), w);
    if s != [] && PVariant(s) {
      assert forall i :: 0 <= i < |w| ==> p[i + 1] == w[i];
      assert forall i :: 0 < i < |s| ==> s[i] == s[1..][i - 1];
      assert forall i :: 0 <= i < |s[1..]| ==> s[1..][i] == s[i + 1];
    }
  }

  /** What a reply is in a subscribed context. An array that is no notice fails an assertion.
      In a notice the first element, up to a NUL in it, is compared in either case. */
  lemma NoticeIff(reply: Reply)
    ensures NoticeOf(reply) == NoNotice <==> !reply.Array?
    ensures NoticeOf(reply) == Misshapen <==>
      reply.Array? && (|reply.elems| < 2 || !reply.elems[0].Str? || !reply.elems[1].Str?)
    ensures NoticeOf(reply).Notice? ==>
      var notice, word := NoticeOf(reply), UpToNul(reply.elems[0].text);
      && notice.name == reply.elems[1].text
      && (notice.pattern <==> word != [] && IsLetter(word[0], 112))
      && (notice.word == SUBSCRIBE <==> Spells(word, Ascii("subscribe")) || Spells(word, Ascii("psubscribe")))
      && (notice.word == UNSUBSCRIBE <==> Spells(word, Ascii("unsubscribe")) || Spells(word, Ascii("punsubscribe")))
      && notice.left == if |reply.elems| > 2 && reply.elems[2].Integer? then Some(reply.elems[2].value) else None
  {
    hide Lower, Stem, UpToNul, Spells, Ascii, SmallLetters;
    if NoticeOf(reply).Notice? {
      var word := UpToNul(reply.elems[0].text);
      Spelt();
      LowerStem(word, SUBSCRIBE, [112] + SUBSCRIBE);
      LowerStem(word, UNSUBSCRIBE, [112] + UNSUBSCRIBE);
    }
  }

  // ---------- What becomes of a reply ----------

  /** A message or a notice: two strings at least. */
  predicate Shaped(reply: Reply) {
    reply.Array? && |reply.elems| >= 2 && reply.elems[0].Str? && reply.elems[1].Str?
  }

  /** Its word as C sees it, and the dictionary that the first letter of it names. */
  function Word(reply: Reply): Bytes
    requires Shaped(reply)
  {
    UpToNul(reply.elems[0].text)
  }

  function TableFor(m: Mode, reply: Reply): Table
    requires Shaped(reply)
  {
    if Word(reply) != [] && IsLetter(Word(reply)[0], 112) then m.tables.patterns else m.tables.channels
  }

  ghost predicate EndsOne(reply: Reply)
    requires Shaped(reply)
  {
    Spells(Word(reply), Ascii("unsubscribe")) || Spells(Word(reply), Ascii("punsubscribe"))
  }

  ghost predicate BeginsOne(reply: Reply)
    requires Shaped(reply)
  {
    Spells(Word(reply), Ascii("subscribe")) || Spells(Word(reply), Ascii("psubscribe"))
  }

  /** A reply is taken if somebody waits for it, or no error and no assertion stops it: an array
      in a subscribed context is a message, and has a number in the third place if it ends
      the subscription of a known name. */
  lemma TakenIff(m: Mode, reply: Reply)
    ensures Taken(m, reply) <==>
      || m.queue != []
      || (!reply.Error? && if !m.subscribed then m.monitoring else
            || !reply.Array?
            || (Shaped(reply) && (EndsOne(reply) && reply.elems[1].text in TableFor(m, reply) ==>
                                    |reply.elems| > 2 && reply.elems[2].Integer?)))
  {
    hide NoticeOf, Spells, Ascii, UpToNul;
    NoticeIff(reply);
  }

  /** A message finds the callback of its channel or pattern. With none there, the callback
      that the reply before it has found stays. */
  lemma MessageFinds(m: Mode, reply: Reply)
    requires m.queue == [] && m.subscribed && Shaped(reply) && !BeginsOne(reply) && !EndsOne(reply)
    ensures var table, name := TableFor(m, reply), reply.elems[1].text;
      Dispatch(m, reply)
      == if name in table then Dispatched(m.(last := table[name]), Subscription) else Dispatched(m, Stale)
  {
    hide NoticeOf, Spells, Ascii, UpToNul;
    NoticeIff(reply);
  }
}
