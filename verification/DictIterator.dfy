/** Walking through a chained hash table (dict.c) while its caller deletes what it has just
    been given. */
module DictIterator {
  import opened Bytes
  import opened Dict

  /** All entries, chain by chain. */
  ghost function Flat<V>(chains: seq<seq<Entry<V>>>): seq<Entry<V>> {
    if chains == [] then [] else chains[0] + Flat(chains[1..])
  }

  lemma {:induction false} FlatSplit<V>(chains: seq<seq<Entry<V>>>, b: nat)
    requires b <= |chains|
    ensures Flat(chains) == Flat(chains[..b]) + Flat(chains[b..])
  {
    if b > 0 {
      FlatSplit(chains[1..], b - 1);
      assert chains[..b][1..] == chains[1..][..b - 1];
      assert chains[b..] == chains[1..][b - 1..];
    } else {
      assert chains[..0] == [] && chains[0..] == chains;
    }
  }

  lemma FlatStep<V>(chains: seq<seq<Entry<V>>>, b: nat)
    requires b < |chains|
    ensures Flat(chains[..b + 1]) == Flat(chains[..b]) + chains[b]
  {
    var upTo := chains[..b + 1];
    FlatSplit(upTo, b);
    var last := upTo[b..];
    assert upTo[..b] == chains[..b] && last == [chains[b]] && last[1..] == [];
  }

  /** Chains of entries that are filed by slot hold no entry twice. */
  lemma {:induction false} FlatDistinct<V>(chains: seq<seq<Entry<V>>>, from: nat, mask: nat, at: map<Bytes, Entry<V>>)
    requires forall b :: 0 <= b < |chains| ==> Bucket(chains[b], from + b, mask, at)
    ensures forall i :: 0 <= i < |Flat(chains)| ==>
      var e := Flat(chains)[i]; e.key in at && at[e.key] == e && Slot(e.key, mask) >= from
    ensures forall i, j :: 0 <= i < j < |Flat(chains)| ==> Flat(chains)[i] != Flat(chains)[j]
  {
    hide Slot;
    if chains != [] {
      assert Bucket(chains[0], from, mask, at);
      var rest := chains[1..];
      forall b | 0 <= b < |rest| ensures Bucket(rest[b], from + 1 + b, mask, at) {
        assert Bucket(chains[b + 1], from + (b + 1), mask, at);
      }
      FlatDistinct(rest, from + 1, mask, at);
      var c, f := chains[0], Flat(rest);
      assert Flat(chains) == c + f;
    }
  }

  lemma FlatHas<V>(chains: seq<seq<Entry<V>>>, b: nat, e: Entry<V>)
    requires b < |chains| && e in chains[b]
    ensures e in Flat(chains)
  {
    FlatSplit(chains, b);
    FlatSplit(chains[b..], 1);
    assert chains[b..][..1] == [chains[b]];
    FlatStep(chains, b);
    FlatSplit(chains, b + 1);
  }

  /** The entries of a table, each exactly once: the map, listed. */
  lemma FlatIsContents<V>(d: Dict<V>)
    requires d.Valid()
    ensures forall k :: k in d.at ==> d.at[k] in Flat(d.chains)
    ensures forall i :: 0 <= i < |Flat(d.chains)| ==> var e := Flat(d.chains)[i]; e.key in d.at && d.at[e.key] == e
    ensures forall i, j :: 0 <= i < j < |Flat(d.chains)| ==> Flat(d.chains)[i].key != Flat(d.chains)[j].key
  {
    FlatDistinct(d.chains, 0, d.sizemask, d.at);
    forall k | k in d.at ensures d.at[k] in Flat(d.chains) {
      assert Inside(d.chains, d.sizemask, d.at, k);
      FlatHas(d.chains, Slot(k, d.sizemask), d.at[k]);
    }
  }

  /** An entry stands behind those of the earlier chains and those before it in its own. */
  lemma FlatAt<V>(chains: seq<seq<Entry<V>>>, b: nat, p: nat)
    requires b < |chains| && p < |chains[b]|
    ensures Total(chains[..b]) + p < |Flat(chains)|
    ensures Flat(chains)[Total(chains[..b]) + p] == chains[b][p]
  {
    FlatSplit(chains, b + 1);
    FlatStep(chains, b);
    FlatTotal(chains[..b]);
  }

  lemma {:induction false} FlatTotal<V>(chains: seq<seq<Entry<V>>>)
    ensures |Flat(chains)| == Total(chains)
  {
    if chains != [] { FlatTotal(chains[1..]); }
  }

  class Iterator<V> {
    const ht: Dict<V>
    var index: int
    var entry: Entry?<V>
    var nextEntry: Entry?<V>
    // The chains at the start of the walk, and how much of the current one was returned.
    ghost const was: seq<seq<Entry<V>>>
    ghost var passed: nat

    /** The walk up to place `p` of chain `b`. */
    ghost function Prefix(b: int, p: nat): seq<Entry<V>>
      requires -1 <= b && (0 <= b < |was| ==> p <= |was[b]|)
    {
      if b < 0 then [] else if b < |was| then Flat(was[..b]) + was[b][..p] else Flat(was)
    }

    lemma PrefixSteps(b: int, p: nat)
      requires -1 <= b && (0 <= b < |was| ==> p <= |was[b]|)
      ensures (0 <= b < |was| ==> p == |was[b]|) ==> Prefix(b + 1, 0) == Prefix(b, p)
      ensures 0 <= b < |was| && p < |was[b]| ==> Prefix(b, p + 1) == Prefix(b, p) + [was[b][p]]
    {
      if 0 <= b < |was| {
        FlatStep(was, b);
        if p < |was[b]| { assert was[b][..p + 1] == was[b][..p] + [was[b][p]]; }
      }
      assert was[..|was|] == was;
    }

    /** Counted from the end, the two chains have the same entry. */
    static ghost predicate Same(now: seq<Entry<V>>, before: seq<Entry<V>>, j: int)
      requires 0 <= j < |before| && |before| - j <= |now|
    {
      now[|now| - |before| + j] == before[j]
    }

    /** The rest of chain `b` from place `p` on and all later chains are as they were. */
    ghost predicate Ahead(b: int, p: nat)
      reads ht`chains, ht`size
    {
      && |ht.chains| == |was| == ht.size
      && (forall c :: 0 <= c < |was| && c > b ==> ht.chains[c] == was[c])
      && (0 <= b < |was| ==>
            && p <= |was[b]| && |was[b]| - p <= |ht.chains[b]|
            && forall j :: p <= j < |was[b]| ==> Same(ht.chains[b], was[b], j))
    }

    lemma AheadSteps(b: int, p: nat)
      requires -1 <= b && Ahead(b, p)
      ensures Ahead(b + 1, 0) && |was| == ht.size && (0 <= b < |was| ==> p <= |was[b]|)
      ensures 0 <= b < |was| && p < |was[b]| ==> Ahead(b, p + 1)
    {}

    /** What was returned up to now. */
    ghost function Seen(): seq<Entry<V>>
      requires -1 <= index && (0 <= index < |was| ==> passed <= |was[index]|)
      reads this
    {
      Prefix(index, passed)
    }

    ghost predicate Valid()
      reads this, ht, ht.table, ht.entries`next
    {
      && ht.Valid() && -1 <= index && Ahead(index, passed)
      && (entry == null ==> index == -1 || index >= |was|)
      && (entry != null ==> 0 <= index < |was| && passed > 0 && nextEntry == Item(was[index], passed))
    }

    /** dictGetIterator. */
    constructor (ht: Dict<V>)
      requires ht.Valid()
      ensures Valid() && this.ht == ht && was == ht.chains && Seen() == []
    {
      this.ht, index, entry, nextEntry := ht, -1, null, null;
      was, passed := ht.chains, 0;
    }

    /** The successor is kept before the entry is handed out: the caller may delete it. */
    method Give()
      requires ht.Valid() && 0 <= index < |was| && Ahead(index, passed)
      requires passed < |was[index]| && entry == was[index][passed]
      modifies `nextEntry, `passed
      ensures passed == old(passed) + 1 <= |was[index]| && nextEntry == Item(was[index], passed)
      ensures Ahead(index, passed) && Seen() == old(Seen()) + [entry]
    {
      hide Dict.Valid, Ahead, Prefix;
      AheadSteps(index, passed);
      PrefixSteps(index, passed);
      Here(index, passed);
      nextEntry := entry.next;
      passed := passed + 1;
    }

    /** dictNext: the entry after those returned before, or null when there is none. */
    method Next() returns (e: Entry?<V>)
      requires Valid()
      modifies this
      ensures Valid() && entry == e
      ensures e != null ==> index < |was| && passed > 0 && was[index][passed - 1] == e && Seen() == old(Seen()) + [e]
      ensures e != null ==> Ahead(index, passed - 1)
      ensures e == null ==> Seen() == old(Seen()) == Flat(was)
    {
      hide Dict.Valid, Prefix, Ahead;
      AheadSteps(index, passed);
      while true
        invariant ht.Valid() && -1 <= index && Ahead(index, passed)
        invariant (0 <= index < |was| ==> passed <= |was[index]|) && Seen() == old(Seen())
        invariant entry == null && 0 <= index < |was| ==> passed == |was[index]|
        invariant entry != null ==> 0 <= index < |was| && nextEntry == Item(was[index], passed)
        decreases |was| - index, if entry == null then 0 else 1
      {
        AheadSteps(index, passed);
        PrefixSteps(index, passed);
        if entry == null {
          Head(index, passed);
          index := index + 1;
          passed := 0;
          if index >= ht.size {
            EndOfWalk();
            break;
          }
          entry := ht.table[index];
        } else {
          entry := nextEntry;
        }
        if entry != null {
          Give();
          return entry;
        }
      }
      e := null;
    }

    lemma EndOfWalk()
      requires index >= |was|
      ensures Seen() == Flat(was)
    {}

    lemma Head(b: int, p: nat)
      requires ht.Valid() && -1 <= b && Ahead(b, p)
      ensures b + 1 < |was| ==> b + 1 < ht.table.Length && ht.table[b + 1] == Item(was[b + 1], 0)
    {
      hide Dict.Valid;
      ht.AllChains();
    }

    /** The entry that is next in the walk still leads on as it did at the start. */
    lemma Here(b: nat, p: nat)
      requires ht.Valid() && Ahead(b, p) && b < |was| && p < |was[b]|
      ensures was[b][p].next == Item(was[b], p + 1)
    {
      hide Dict.Valid;
      ht.AllChains();
      var c := ht.chains[b];
      var i := |c| - (|was[b]| - p);
      assert Same(c, was[b], p) && Chain(ht.table[b], c) && Link(c, i);
      if p + 1 < |was[b]| { assert Same(c, was[b], p + 1); }
    }

    lemma NotPastEnd()
      requires -1 <= index && (0 <= index < |was| ==> passed <= |was[index]|)
      ensures |Seen()| <= |Flat(was)|
    {
      if 0 <= index < |was| {
        FlatStep(was, index);
        FlatSplit(was, index + 1);
      }
    }

    /** The place of the entry that was just returned. */
    lemma JustReturned()
      requires Valid() && entry != null && Ahead(index, passed - 1) && was[index][passed - 1] == entry
      ensures entry.key in ht.at && ht.at[entry.key] == entry && Slot(entry.key, ht.sizemask) == index
      ensures var c := ht.chains[index];
        forall i :: 0 <= i < |c| && c[i] == entry ==> i == |c| - |was[index]| + passed - 1
    {
      var c := ht.chains[index];
      assert Bucket(c, index, ht.sizemask, ht.at);
      assert Same(c, was[index], passed - 1);
    }

    /** The caller deletes the entry that it was just given. */
    method DeleteReturned()
      requires Valid() && entry != null && Ahead(index, passed - 1) && was[index][passed - 1] == entry
      modifies ht`chains, ht`at, ht`used, ht.table, ht.entries`next
      ensures Valid() && ht.at == old(ht.at) - {entry.key}
    {
      hide Dict.Valid, Slot;
      JustReturned();
      ghost var c := ht.chains[index];
      var _, i := ht.Delete(entry.key);
      ghost var cut := c[..i] + c[i + 1..];
      forall j | passed <= j < |was[index]| ensures Same(cut, was[index], j) {
        assert Same(c, was[index], j);
      }
    }
  }

  /** The keys of the returned entries that the caller chose to delete. */
  ghost function Chosen<V>(returned: seq<Entry<V>>, delete: seq<bool>): set<Bytes> {
    set i | 0 <= i < |returned| && i < |delete| && delete[i] :: returned[i].key
  }

  lemma ChosenNext<V>(returned: seq<Entry<V>>, e: Entry<V>, delete: seq<bool>)
    ensures Chosen(returned + [e], delete)
      == Chosen(returned, delete) + if |returned| < |delete| && delete[|returned|] then {e.key} else {}
  {
    var all := returned + [e];
    forall k | k in Chosen(returned, delete) ensures k in Chosen(all, delete) {
      var i :| 0 <= i < |returned| && i < |delete| && delete[i] && returned[i].key == k;
      assert all[i].key == k;
    }
    if |returned| < |delete| && delete[|returned|] { assert all[|returned|].key == e.key; }
  }

  lemma NoneChosen<V>(none: seq<Entry<V>>, delete: seq<bool>)
    requires none == []
    ensures Chosen(none, delete) == {}
  {}

  ghost predicate Deleted(delete: seq<bool>, i: nat) { i < |delete| && delete[i] }

  /** Entries of the table with different keys. */
  ghost predicate Listed<V>(at: map<Bytes, Entry<V>>, es: seq<Entry<V>>) {
    && (forall i :: 0 <= i < |es| ==> es[i].key in at)
    && (forall i, j :: 0 <= i < j < |es| ==> es[i].key != es[j].key)
  }

  lemma FlatListed<V>(d: Dict<V>)
    requires d.Valid()
    ensures Listed(d.at, Flat(d.chains))
  {
    hide Dict.Valid, Flat;
    FlatIsContents(d);
  }

  /** Of the returned entries exactly those are gone that the caller has deleted. */
  lemma ChosenAre<V>(was: map<Bytes, Entry<V>>, returned: seq<Entry<V>>, delete: seq<bool>)
    requires Listed(was, returned)
    ensures forall i :: 0 <= i < |returned| ==>
      (returned[i].key in was - Chosen(returned, delete) <==> !Deleted(delete, i))
  {
    forall i | 0 <= i < |returned| ensures returned[i].key in Chosen(returned, delete) <==> Deleted(delete, i) {
      if returned[i].key in Chosen(returned, delete) {
        var j :| 0 <= j < |returned| && j < |delete| && delete[j] && returned[j].key == returned[i].key;
        assert j == i;
      }
    }
  }

  /** A full walk, where `delete` says of each entry whether it is deleted before the next
      is asked for: every entry of the table is returned, once, whatever is deleted. */
  method Walk<V>(ht: Dict<V>, delete: seq<bool>) returns (returned: seq<Entry<V>>)
    requires ht.Valid()
    modifies ht`chains, ht`at, ht`used, ht.table, ht.entries`next
    ensures ht.Valid() && returned == Flat(old(ht.chains))
    ensures ht.at == old(ht.at) - Chosen(returned, delete)
    ensures forall i :: 0 <= i < |returned| ==> (returned[i].key in ht.at <==> !Deleted(delete, i))
  {
    hide Dict.Valid, Flat, Slot, Chosen, Deleted, Listed;
    FlatListed(ht);
    var iter := new Iterator(ht);
    returned := [];
    NoneChosen(returned, delete);
    while true
      invariant iter.ht == ht && iter.Valid() && iter.was == old(ht.chains)
      invariant returned == iter.Seen()
      invariant ht.at == old(ht.at) - Chosen(returned, delete)
      decreases |Flat(iter.was)| - |returned|
    {
      var e := iter.Next();
      if e == null { break; }
      iter.NotPastEnd();
      ghost var before := returned;
      returned := returned + [e];
      ChosenNext(before, e, delete);
      if |returned| <= |delete| && delete[|returned| - 1] { iter.DeleteReturned(); }
    }
    ChosenAre(old(ht.at), returned, delete);
  }
}
