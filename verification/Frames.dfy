/** What a half-read reply means. A frame is an open array of the task stack; the
    frames and the current item's type are a continuation of the grammar, and
    `Resume` runs it. The lemmas say that each stack operation of the reader
    leaves this meaning unchanged, for every possible continuation of the input. */
module Frames {
  import opened Bytes
  import opened Resp

  /** An array of `n` items of which `done` have been built. */
  datatype Frame = Frame(n: nat, done: seq<Reply>) {
    ghost predicate Open() { |done| < n }
  }

  ghost predicate AllOpen(frames: seq<Frame>) {
    |frames| <= MAX_LEVEL && forall i :: 0 <= i < |frames| ==> frames[i].Open()
  }

  /** The rest of a frame's array, given its next item. */
  ghost function FinishFrame(f: Frame, level: nat, item: Outcome<Reply>): Outcome<Reply>
    requires f.Open() && level <= MAX_LEVEL
  {
    match item
    case More => More
    case Fail(e) => Fail(e)
    case Done(v, rest) => Wrap(Prepend(f.done + [v], ParseItems(rest, f.n - |f.done| - 1, level)))
  }

  /** The root reply, given the outcome of the innermost item. */
  ghost function Resume(frames: seq<Frame>, item: Outcome<Reply>): Outcome<Reply>
    requires AllOpen(frames)
    decreases |frames|
  {
    if frames == [] then item
    else Resume(frames[..|frames| - 1], FinishFrame(frames[|frames| - 1], |frames|, item))
  }

  /** The outcome of the current item on the bytes to come. */
  ghost function Item(t: Option<ItemType>, level: nat, x: Bytes): Outcome<Reply>
    requires level <= MAX_LEVEL
  {
    match t case None => ParseReply(x, level) case Some(k) => ParseTyped(k, x, level)
  }

  ghost function Meaning(frames: seq<Frame>, t: Option<ItemType>, x: Bytes): Outcome<Reply>
    requires AllOpen(frames)
  {
    Resume(frames, Item(t, |frames|, x))
  }

  // The relation between the bytes used up and the stack, in three forms: the
  // current item is still to come, it has just been completed, the reply is.

  ghost predicate Tracks(used: Bytes, frames: seq<Frame>, t: Option<ItemType>) {
    AllOpen(frames) && forall x: Bytes {:trigger ParseReply(used + x, 0)} :: ParseReply(used + x, 0) == Meaning(frames, t, x)
  }

  ghost predicate TracksItem(used: Bytes, frames: seq<Frame>, v: Reply) {
    AllOpen(frames) && forall x: Bytes {:trigger ParseReply(used + x, 0)} :: ParseReply(used + x, 0) == Resume(frames, Done(v, x))
  }

  ghost predicate Completes(used: Bytes, v: Reply) {
    forall x: Bytes {:trigger ParseReply(used + x, 0)} :: ParseReply(used + x, 0) == Done(v, x)
  }

  /** The bytes of finished replies, and those replies. */
  ghost predicate Emits(used: Bytes, vs: seq<Reply>) {
    forall x: Bytes {:trigger ReadAll(used + x)} :: ReadAll(used + x) == After(vs, ReadAll(x))
  }

  /** Bytes `c` are the whole of an item, or of an array header, whatever follows. */
  ghost predicate ItemIs(t: ItemType, level: nat, c: Bytes, v: Reply) {
    level <= MAX_LEVEL && forall x: Bytes {:trigger Item(Some(t), level, c + x)} :: Item(Some(t), level, c + x) == Done(v, x)
  }

  ghost predicate HeaderIs(c: Bytes, n: int) {
    forall x: Bytes {:trigger ParseHeader(c + x)} :: ParseHeader(c + x) == Done(n, x)
  }

  lemma StartTracks()
    ensures Tracks([], [], None)
  {
    forall x: Bytes ensures ParseReply([] + x, 0) == Meaning([], None, x) { assert [] + x == x; }
  }

  lemma StartEmits()
    ensures Emits([], [])
  {
    forall x: Bytes ensures ReadAll([] + x) == After([], ReadAll(x)) { assert [] + x == x; }
  }

  lemma TypeByteTracks(used: Bytes, frames: seq<Frame>, b: Byte, t: ItemType)
    requires Tracks(used, frames, None) && TypeOf(b) == Some(t)
    ensures Tracks(used + [b], frames, Some(t))
  {
    forall x: Bytes ensures ParseReply(used + [b] + x, 0) == Meaning(frames, Some(t), x) {
      assert used + [b] + x == used + ([b] + x);
      assert ([b] + x)[1..] == x;
    }
  }

  lemma ItemAt(used: Bytes, frames: seq<Frame>, t: ItemType, c: Bytes, v: Reply, x: Bytes)
    requires AllOpen(frames)
    requires ParseReply(used + (c + x), 0) == Meaning(frames, Some(t), c + x)
    requires Item(Some(t), |frames|, c + x) == Done(v, x)
    ensures ParseReply(used + c + x, 0) == Resume(frames, Done(v, x))
  {
    assert used + c + x == used + (c + x);
  }

  /** Bytes `c` that complete the current item whatever follows. */
  lemma ItemTracks(used: Bytes, frames: seq<Frame>, t: ItemType, c: Bytes, v: Reply)
    requires Tracks(used, frames, Some(t)) && ItemIs(t, |frames|, c, v)
    ensures TracksItem(used + c, frames, v)
  {
    forall x: Bytes ensures ParseReply(used + c + x, 0) == Resume(frames, Done(v, x)) {
      ItemAt(used, frames, t, c, v, x);
    }
  }

  /** An array header opens a frame. */
  lemma HeaderTracks(used: Bytes, frames: seq<Frame>, c: Bytes, n: nat)
    requires Tracks(used, frames, Some(TArray)) && |frames| < MAX_LEVEL && n > 0
    requires HeaderIs(c, n)
    ensures Tracks(used + c, frames + [Frame(n, [])], None)
  {
    var inner := frames + [Frame(n, [])];
    assert inner[..|frames|] == frames;
    forall x: Bytes ensures ParseReply(used + c + x, 0) == Meaning(inner, None, x) {
      assert used + c + x == used + (c + x);
      assert ParseHeader(c + x) == Done(n, x);
      ArrayItem(c + x, n, |frames|, x);
    }
  }

  lemma ArrayItem(s: Bytes, n: nat, level: nat, x: Bytes)
    requires level < MAX_LEVEL && n > 0 && ParseHeader(s) == Done(n, x)
    ensures Item(Some(TArray), level, s) == FinishFrame(Frame(n, []), level + 1, ParseReply(x, level + 1))
  {
    NextItem(Frame(n, []), level + 1, x);
    PrependNothing(ParseItems(x, n, level + 1));
    HeadedArray(s, n, level, x);
  }

  lemma HeadedArray(s: Bytes, n: nat, level: nat, x: Bytes)
    requires level < MAX_LEVEL && ParseHeader(s) == Done(n, x)
    ensures ParseArray(s, level) == Wrap(ParseItems(x, n, level + 1))
  {
  }

  lemma PrependNothing(r: Outcome<seq<Reply>>)
    ensures Prepend([], r) == r
  {
    if r.Done? { assert [] + r.value == r.value; }
  }

  /** A frame's remaining items start with its next item. */
  lemma NextItem(f: Frame, level: nat, x: Bytes)
    requires f.Open() && level <= MAX_LEVEL
    ensures FinishFrame(f, level, ParseReply(x, level)) == Wrap(Prepend(f.done, ParseItems(x, f.n - |f.done|, level)))
  {
    var r := ParseReply(x, level);
    if r.Done? {
      var tail := ParseItems(r.rest, f.n - |f.done| - 1, level);
      if tail.Done? { assert f.done + ([r.value] + tail.value) == f.done + [r.value] + tail.value; }
    }
  }

  /** The last item of a frame completes the frame's array. */
  lemma PopTracks(used: Bytes, frames: seq<Frame>, outer: seq<Frame>, f: Frame, v: Reply)
    requires TracksItem(used, frames, v) && frames == outer + [f] && |f.done| + 1 == f.n
    ensures TracksItem(used, outer, Array(f.done + [v]))
  {
    assert frames[..|outer|] == outer;
    forall x: Bytes ensures ParseReply(used + x, 0) == Resume(outer, Done(Array(f.done + [v]), x)) {
      assert f.done + [v] + [] == f.done + [v];
      assert FinishFrame(f, |frames|, Done(v, x)) == Done(Array(f.done + [v]), x);
    }
  }

  /** Any other item makes its frame wait for the next. */
  lemma NextTracks(used: Bytes, frames: seq<Frame>, outer: seq<Frame>, f: Frame, v: Reply)
    requires TracksItem(used, frames, v) && frames == outer + [f] && |f.done| + 1 < f.n
    ensures Tracks(used, outer + [Frame(f.n, f.done + [v])], None)
  {
    var f' := Frame(f.n, f.done + [v]);
    var frames' := outer + [f'];
    assert frames[..|outer|] == outer && frames'[..|outer|] == outer;
    forall x: Bytes ensures ParseReply(used + x, 0) == Meaning(frames', None, x) {
      NextItem(f', |frames|, x);
    }
  }

  lemma RootCompletes(used: Bytes, v: Reply)
    requires TracksItem(used, [], v)
    ensures Completes(used, v)
  {
  }

  lemma CompletesSome(used: Bytes, v: Reply)
    requires Completes(used, v)
    ensures used != []
  {
    assert ParseReply(used + [], 0) == Done(v, []);
  }

  lemma EmitsOneMore(used: Bytes, vs: seq<Reply>, c: Bytes, v: Reply)
    requires Emits(used, vs) && Completes(c, v)
    ensures Emits(used + c, vs + [v])
  {
    forall x: Bytes ensures ReadAll(used + c + x) == After(vs + [v], ReadAll(x)) {
      assert used + c + x == used + (c + x);
      assert ReadAll(c + x) == After([v], ReadAll(x));
      AfterAfter(vs, [v], ReadAll(x));
    }
  }

  lemma {:induction false} ResumeStops(frames: seq<Frame>, item: Outcome<Reply>)
    requires AllOpen(frames) && !item.Done?
    ensures Resume(frames, item) == item
    decreases |frames|
  {
    if frames != [] {
      ResumeStops(frames[..|frames| - 1], item);
    }
  }

  /** When the current item waits or fails, so does the reply. */
  lemma ReplyStops(used: Bytes, frames: seq<Frame>, t: Option<ItemType>, x: Bytes)
    requires Tracks(used, frames, t) && !Item(t, |frames|, x).Done?
    ensures ParseReply(used + x, 0) == Item(t, |frames|, x)
  {
    ResumeStops(frames, Item(t, |frames|, x));
  }

  /** When the reply waits or fails, so does the stream. */
  lemma StreamStops(before: Bytes, vs: seq<Reply>, x: Bytes)
    requires Emits(before, vs) && !ParseReply(x, 0).Done?
    ensures ReadAll(before + x) == Stream(vs, if ParseReply(x, 0).More? then None else Some(ParseReply(x, 0).error))
  {
    assert vs + [] == vs;
  }
}
