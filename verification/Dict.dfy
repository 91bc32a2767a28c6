/** The chained hash table (dict.c): whatever it does to its chains, it is a finite map. */
module Dict {
  import opened Bytes
  import opened Hashing

  class Entry<V> {
    const key: Bytes
    var val: V
    var next: Entry?<V>

    constructor (key: Bytes, val: V, next: Entry?<V>)
      ensures this.key == key && this.val == val && this.next == next
    {
      this.key, this.val, this.next := key, val, next;
    }
  }

  // ---------- Chains ----------

  function Slot(key: Bytes, mask: nat): nat {
    And(Hash(key), mask)
  }

  lemma SlotFits(key: Bytes, size: nat)
    requires PowerOfTwo(size)
    ensures Slot(key, size - 1) < size
  {
    AndIsRemainder(Hash(key), size);
  }

  ghost function Item<V>(c: seq<Entry<V>>, i: nat): Entry?<V> {
    if i < |c| then c[i] else null
  }

  ghost predicate Link<V>(c: seq<Entry<V>>, i: nat)
    requires i < |c|
    reads c`next
  {
    c[i].next == Item(c, i + 1)
  }

  /** The entries reached from `head`, in order. */
  ghost predicate Chain<V>(head: Entry?<V>, c: seq<Entry<V>>)
    reads c`next
  {
    head == Item(c, 0) && forall i :: 0 <= i < |c| ==> Link(c, i)
  }

  lemma ChainFront<V>(head: Entry?<V>, c: seq<Entry<V>>)
    requires Chain(head, c)
    ensures head == (if c == [] then null else c[0]) && (c != [] ==> Chain(head.next, c[1..]))
  {
    if c != [] { assert Link(c, 0); }
    forall i | 0 <= i < |c| - 1 ensures Link(c[1..], i) { assert Link(c, i + 1); }
  }

  lemma ChainBack<V>(e: Entry<V>, c: seq<Entry<V>>)
    requires Chain(e.next, c)
    ensures Chain(e, [e] + c)
  {
    forall i | 0 <= i <= |c| ensures Link([e] + c, i) {
      if i > 0 { assert Link(c, i - 1); }
    }
  }

  /** A chain without its entry at place `i` is linked by one assignment. */
  lemma CutChain<V>(head: Entry?<V>, c: seq<Entry<V>>, i: nat)
    requires i < |c| && forall j :: 0 <= j < |c| && j != i - 1 ==> Link(c, j)
    requires if i == 0 then head == Item(c, 1) else head == c[0] && c[i - 1].next == Item(c, i + 1)
    ensures Chain(head, c[..i] + c[i + 1..])
  {
    var cut := c[..i] + c[i + 1..];
    forall j | 0 <= j < |cut| ensures Link(cut, j) {
      if j != i - 1 { assert Link(c, if j < i then j else j + 1); }
    }
  }

  /** Chain `b` has no entry twice; each is the one its key stands for, and belongs here. */
  ghost predicate Bucket<V>(c: seq<Entry<V>>, b: nat, mask: nat, at: map<Bytes, Entry<V>>) {
    && (forall i :: 0 <= i < |c| ==> c[i].key in at && at[c[i].key] == c[i] && Slot(c[i].key, mask) == b)
    && (forall i, j :: 0 <= i < j < |c| ==> c[i] != c[j])
  }

  ghost predicate Stored<V>(chains: seq<seq<Entry<V>>>, mask: nat, at: map<Bytes, Entry<V>>) {
    forall b :: 0 <= b < |chains| ==> Bucket(chains[b], b, mask, at)
  }

  /** The entry of `k` is in the chain that its hash value names. */
  ghost predicate Inside<V>(chains: seq<seq<Entry<V>>>, mask: nat, at: map<Bytes, Entry<V>>, k: Bytes) {
    k in at && at[k].key == k && Slot(k, mask) < |chains| && at[k] in chains[Slot(k, mask)]
  }

  ghost function Total<V>(chains: seq<seq<Entry<V>>>): nat {
    if chains == [] then 0 else |chains[0]| + Total(chains[1..])
  }

  lemma {:induction false} TotalUpdate<V>(chains: seq<seq<Entry<V>>>, b: nat, c: seq<Entry<V>>)
    requires b < |chains|
    ensures Total(chains[b := c]) == Total(chains) - |chains[b]| + |c|
  {
    if b == 0 {
      assert chains[0 := c][1..] == chains[1..];
    } else {
      assert chains[b := c][1..] == chains[1..][b - 1 := c];
      TotalUpdate(chains[1..], b - 1, c);
    }
  }

  lemma {:induction false} TotalZero<V>(chains: seq<seq<Entry<V>>>)
    ensures Total(chains) == 0 <==> forall b :: 0 <= b < |chains| ==> chains[b] == []
  {
    if chains != [] {
      TotalZero(chains[1..]);
      assert (forall b :: 0 <= b < |chains| ==> chains[b] == []) <==>
        chains[0] == [] && forall b :: 0 <= b < |chains[1..]| ==> chains[1..][b] == [] by {
        assert forall b :: 1 <= b < |chains| ==> chains[b] == chains[1..][b - 1];
      }
    }
  }

  /** The walk along a chain until a key is met. */
  method Scan<V>(head: Entry?<V>, ghost c: seq<Entry<V>>, key: Bytes) returns (he: Entry?<V>)
    requires Chain(head, c)
    ensures he != null ==> he in c && he.key == key
    ensures he == null ==> forall i :: 0 <= i < |c| ==> c[i].key != key
  {
    ghost var i := 0;
    he := head;
    while he != null
      invariant 0 <= i <= |c| && he == Item(c, i)
      invariant forall j :: 0 <= j < i ==> c[j].key != key
      decreases |c| - i
    {
      if he.key == key { return; }
      assert Link(c, i);
      he := he.next;
      i := i + 1;
    }
  }

  // ---------- The table ----------

  class Dict<V> {
    var table: array<Entry?<V>>
    var size: nat
    var sizemask: nat
    var used: nat
    // The chain of each slot, and the entry of each key.
    ghost var chains: seq<seq<Entry<V>>>
    ghost var at: map<Bytes, Entry<V>>
    ghost var entries: set<Entry<V>>

    ghost predicate SizesOk()
      reads `table, `size, `sizemask, `chains
    {
      && table.Length == size == |chains|
      && (size == 0 || (PowerOfTwo(size) && size >= INITIAL_SIZE))
      && sizemask == if size == 0 then 0 else size - 1
    }

    ghost predicate Filed()
      reads `chains, `sizemask, `at, `used, `entries
    {
      && Stored(chains, sizemask, at)
      && (forall k :: k in at ==> Inside(chains, sizemask, at, k) && at[k] in entries)
      && used == |at| == Total(chains)
    }

    ghost predicate Linked()
      requires table.Length == |chains| && Filed()
      reads `table, `chains, `sizemask, `at, `used, `entries, table, entries`next
    {
      forall b :: 0 <= b < |chains| ==> InEntries(b) && Chain(table[b], chains[b])
    }

    ghost predicate InEntries(b: nat)
      requires b < |chains|
      reads `chains, `entries
    {
      forall i :: 0 <= i < |chains[b]| ==> chains[b][i] in entries
    }

    ghost predicate Valid()
      reads this, table, entries`next
    {
      SizesOk() && Filed() && Linked() && used <= size
    }

    /** The finite map that the table stands for. */
    ghost function Contents(): map<Bytes, V>
      reads `at, at.Values`val
    {
      map k | k in at :: at[k].val
    }

    lemma SameKeys()
      ensures forall k :: k in Contents() <==> k in at
    {}

    constructor ()
      ensures Valid() && at == map[] && fresh(table)
    {
      table := new Entry?<V>[0](_ => null);
      size, sizemask, used, chains, at, entries := 0, 0, 0, [], map[], {};
    }

    /** What a search for a key may rely on: its chain is the one at its slot, and it is
        there or nowhere. */
    lemma Lookup(key: Bytes)
      requires Valid() && size > 0
      ensures Slot(key, sizemask) < size == table.Length == |chains|
      ensures var c := chains[Slot(key, sizemask)];
        && Chain(table[Slot(key, sizemask)], c) && Bucket(c, Slot(key, sizemask), sizemask, at)
        && (key in at ==> at[key].key == key && at[key] in c)
    {
      SlotFits(key, size);
      assert InEntries(Slot(key, sizemask));
      if key in at { assert Inside(chains, sizemask, at, key); }
    }

    method Find(key: Bytes) returns (he: Entry?<V>)
      requires Valid()
      ensures he == if key in at then at[key] else null
    {
      hide Linked, Filed, SizesOk, And, Hash;
      if size == 0 {
        Empty();
        return null;
      }
      Lookup(key);
      var hash := GenHashFunction(key);
      var h := And(hash, sizemask);
      he := Scan(table[h], chains[h], key);
    }

    lemma Empty()
      requires Valid() && size == 0
      ensures at == map[]
    {
      assert |at| == 0;
    }

    lemma Sizes()
      requires Valid()
      ensures table.Length == size == |chains| && used == |at| == Total(chains) <= size
    {}

    // ---------- Expansion ----------

    /** An entry is in exactly one of the two tables. */
    ghost predicate Either(moved: seq<seq<Entry<V>>>, mask: nat, left: seq<seq<Entry<V>>>, k: Bytes)
      reads `at, `sizemask, `entries
    {
      && k in at && at[k].key == k && at[k] in entries && Slot(k, mask) < |moved| && Slot(k, sizemask) < |left|
      && (at[k] in moved[Slot(k, mask)] <==> at[k] !in left[Slot(k, sizemask)])
    }

    /** The values in the middle of an expansion: `moved` is in the new table, `left` is
        still in the old one. */
    ghost predicate Halfway(moved: seq<seq<Entry<V>>>, mask: nat, left: seq<seq<Entry<V>>>)
      reads `at, `sizemask, `entries
    {
      && Stored(moved, mask, at) && Stored(left, sizemask, at)
      && (forall k :: k in at ==> Either(moved, mask, left, k))
      && Total(left) + Total(moved) == |at|
    }

    /** The links: in the old table the chain at slot `i` starts at `he`, those before it
        are gone and those after it are as they were. */
    ghost predicate Threaded(t: array<Entry?<V>>, moved: seq<seq<Entry<V>>>, left: seq<seq<Entry<V>>>, i: nat, he: Entry?<V>)
      reads `table, table, t, set b, j | 0 <= b < |moved| && 0 <= j < |moved[b]| :: moved[b][j]
      reads set b, j | 0 <= b < |left| && 0 <= j < |left[b]| :: left[b][j]
    {
      && t.Length == |moved| && table.Length == |left|
      && (forall b :: 0 <= b < |moved| ==> Chain(t[b], moved[b]))
      && (forall b :: 0 <= b < |left| ==> if b < i then left[b] == [] else Chain(if b == i then he else table[b], left[b]))
    }

    ghost function Put(moved: seq<seq<Entry<V>>>, mask: nat, e: Entry<V>): seq<seq<Entry<V>>>
      requires Slot(e.key, mask) < |moved|
    {
      moved[Slot(e.key, mask) := [e] + moved[Slot(e.key, mask)]]
    }

    /** The entry that moves is in no other place, before and after. */
    lemma Apart(moved: seq<seq<Entry<V>>>, mask: nat, left: seq<seq<Entry<V>>>, i: nat)
      requires Halfway(moved, mask, left) && i < |left| && left[i] != []
      ensures var e := left[i][0];
        && e.key in at && at[e.key] == e && e in entries
        && Slot(e.key, mask) < |moved| && Slot(e.key, sizemask) == i
      ensures forall b :: 0 <= b < |moved| ==> left[i][0] !in moved[b]
      ensures forall b :: 0 <= b < |left| ==> left[i][0] !in if b == i then left[i][1..] else left[b]
    {
      var e := left[i][0];
      assert Bucket(left[i], i, sizemask, at);
      assert Either(moved, mask, left, e.key);
      forall b | 0 <= b < |moved| ensures e !in moved[b] {
        assert Bucket(moved[b], b, mask, at);
      }
      forall b | 0 <= b < |left| ensures e !in if b == i then left[i][1..] else left[b] {
        assert Bucket(left[b], b, sizemask, at);
      }
    }

    lemma PourStored(moved: seq<seq<Entry<V>>>, mask: nat, left: seq<seq<Entry<V>>>, i: nat)
      requires Halfway(moved, mask, left) && i < |left| && left[i] != []
      ensures Slot(left[i][0].key, mask) < |moved|
      ensures Stored(Put(moved, mask, left[i][0]), mask, at)
      ensures Stored(left[i := left[i][1..]], sizemask, at)
    {
      hide Either, Slot;
      Apart(moved, mask, left, i);
      var after := Put(moved, mask, left[i][0]);
      forall b | 0 <= b < |after| ensures Bucket(after[b], b, mask, at) {
        assert Bucket(moved[b], b, mask, at);
      }
      var rest := left[i := left[i][1..]];
      forall b | 0 <= b < |rest| ensures Bucket(rest[b], b, sizemask, at) {
        assert Bucket(left[b], b, sizemask, at);
      }
    }

    lemma PourEither(moved: seq<seq<Entry<V>>>, mask: nat, left: seq<seq<Entry<V>>>, i: nat, k: Bytes)
      requires Halfway(moved, mask, left) && i < |left| && left[i] != [] && k in at
      ensures Slot(left[i][0].key, mask) < |moved|
      ensures Either(Put(moved, mask, left[i][0]), mask, left[i := left[i][1..]], k)
    {
      hide Stored, Slot;
      var e := left[i][0];
      Apart(moved, mask, left, i);
      assert Either(moved, mask, left, k);
      if at[k] == e {
        assert Put(moved, mask, e)[Slot(k, mask)][0] == e;
      } else {
        assert left[i] == [e] + left[i][1..];
      }
    }

    lemma PourOne(moved: seq<seq<Entry<V>>>, mask: nat, left: seq<seq<Entry<V>>>, i: nat)
      requires Halfway(moved, mask, left) && i < |left| && left[i] != []
      ensures Slot(left[i][0].key, mask) < |moved|
      ensures Halfway(Put(moved, mask, left[i][0]), mask, left[i := left[i][1..]])
      ensures Total(left[i := left[i][1..]]) == Total(left) - 1
    {
      hide Stored, Either, Slot, Total;
      PourStored(moved, mask, left, i);
      forall k | k in at ensures Either(Put(moved, mask, left[i][0]), mask, left[i := left[i][1..]], k) {
        PourEither(moved, mask, left, i, k);
      }
      var h := Slot(left[i][0].key, mask);
      TotalUpdate(left, i, left[i][1..]);
      TotalUpdate(moved, h, [left[i][0]] + moved[h]);
    }

    /** The entry at the head of what is left goes to the front of its new chain. */
    method MoveEntry(t: array<Entry?<V>>, mask: nat, ghost moved: seq<seq<Entry<V>>>, ghost left: seq<seq<Entry<V>>>,
                     ghost i: nat, he: Entry<V>)
      returns (nextHe: Entry?<V>)
      requires Halfway(moved, mask, left) && Threaded(t, moved, left, i, he)
      requires i < |left| && left[i] != [] && t != table
      modifies t, he`next
      ensures he == left[i][0] && Slot(he.key, mask) < |moved|
      ensures Threaded(t, Put(moved, mask, he), left[i := left[i][1..]], i, nextHe)
    {
      hide Halfway, Stored, Either, Hash, And, Chain;
      Apart(moved, mask, left, i);
      ChainFront(he, left[i]);
      nextHe := he.next;
      var hash := GenHashFunction(he.key);
      var h := And(hash, mask);
      var head := t[h];
      he.next := head;
      assert Chain(nextHe, left[i][1..]) && Chain(head, moved[h]);
      ChainBack(he, moved[h]);
      t[h] := he;
    }

    lemma Start(n: nat)
      requires Valid() && PowerOfTwo(n)
      ensures Halfway(seq(n, _ => []), n - 1, chains)
    {
      hide Slot, Linked;
      var moved: seq<seq<Entry<V>>> := seq(n, _ => []);
      TotalZero(moved);
      forall k | k in at ensures Either(moved, n - 1, chains, k) {
        assert Inside(chains, sizemask, at, k);
        SlotFits(k, n);
      }
    }

    /** An exhausted chain, and on to the next slot. */
    lemma NextSlot(t: array<Entry?<V>>, moved: seq<seq<Entry<V>>>, left: seq<seq<Entry<V>>>, i: nat)
      requires Threaded(t, moved, left, i, null) && i < |left|
      ensures Threaded(t, moved, left, i + 1, if i + 1 < |left| then table[i + 1] else null)
    {
      assert Chain(null, left[i]);
      assert left[i] == [];
    }

    /** All the entries of slot `i` go to the new table. */
    method MoveChain(t: array<Entry?<V>>, mask: nat, ghost moved: seq<seq<Entry<V>>>, ghost left: seq<seq<Entry<V>>>, i: nat)
      returns (ghost moved': seq<seq<Entry<V>>>, ghost left': seq<seq<Entry<V>>>)
      requires i < |left| && Halfway(moved, mask, left) && t != table && used == Total(left)
      requires table.Length == |left| && Threaded(t, moved, left, i, table[i])
      modifies `used, t, entries`next
      ensures Halfway(moved', mask, left') && |left'| == |left| && |moved'| == |moved| && used == Total(left')
      ensures Threaded(t, moved', left', i + 1, if i + 1 < |left| then table[i + 1] else null)
    {
      hide Halfway, Chain;
      moved', left' := moved, left;
      var he := table[i];
      while he != null
        invariant |left'| == |left| && |moved'| == |moved| && used == Total(left')
        invariant Halfway(moved', mask, left') && Threaded(t, moved', left', i, he)
        decreases used
      {
        ChainFront(he, left'[i]);
        Apart(moved', mask, left', i);
        PourOne(moved', mask, left', i);
        var nextHe := MoveEntry(t, mask, moved', left', i, he);
        moved', left' := Put(moved', mask, he), left'[i := left'[i][1..]];
        used := used - 1;
        he := nextHe;
      }
      NextSlot(t, moved', left', i);
    }

    /** When nothing is left in the old table, the new one holds every entry. */
    lemma AllMoved(moved: seq<seq<Entry<V>>>, mask: nat, left: seq<seq<Entry<V>>>)
      requires Halfway(moved, mask, left) && Total(left) == 0
      ensures Stored(moved, mask, at) && Total(moved) == |at|
      ensures forall k :: k in at ==> Inside(moved, mask, at, k) && at[k] in entries
      ensures forall b, i :: 0 <= b < |moved| && 0 <= i < |moved[b]| ==> moved[b][i] in entries
    {
      TotalZero(left);
      forall k | k in at ensures Inside(moved, mask, at, k) && at[k] in entries {
        assert Either(moved, mask, left, k);
      }
      forall b, i | 0 <= b < |moved| && 0 <= i < |moved[b]| ensures moved[b][i] in entries {
        assert Bucket(moved[b], b, mask, at);
        assert Either(moved, mask, left, moved[b][i].key);
      }
    }

    /** The new table takes the place of the old one. */
    method Install(t: array<Entry?<V>>, n: nat, nused: nat, ghost moved: seq<seq<Entry<V>>>)
      requires PowerOfTwo(n) && n >= INITIAL_SIZE && n == t.Length == |moved| && nused <= n
      requires Stored(moved, n - 1, at) && Total(moved) == |at| == nused
      requires forall k :: k in at ==> Inside(moved, n - 1, at, k) && at[k] in entries
      requires forall b, i :: 0 <= b < |moved| && 0 <= i < |moved[b]| ==> moved[b][i] in entries
      requires forall b :: 0 <= b < |moved| ==> Chain(t[b], moved[b])
      modifies `table, `size, `sizemask, `used, `chains
      ensures Valid() && table == t && size == n && used == nused
    {
      hide Chain, Bucket, Inside, Total, PowerOfTwo;
      table, size, sizemask, used, chains := t, n, n - 1, nused, moved;
      forall b | 0 <= b < |chains| ensures InEntries(b) {}
    }

    /** Slot after slot, until no entry is left in the old table. */
    method MoveAll(t: array<Entry?<V>>, n: nat) returns (ghost moved: seq<seq<Entry<V>>>)
      requires Valid() && PowerOfTwo(n) && n == t.Length && t != table && forall b :: 0 <= b < n ==> t[b] == null
      modifies `used, t, entries`next
      ensures used == 0 && |moved| == n && Stored(moved, n - 1, at) && Total(moved) == |at|
      ensures forall k :: k in at ==> Inside(moved, n - 1, at, k) && at[k] in entries
      ensures forall b, i :: 0 <= b < |moved| && 0 <= i < |moved[b]| ==> moved[b][i] in entries
      ensures forall b :: 0 <= b < |moved| ==> Chain(t[b], moved[b])
    {
      hide Valid, Halfway, Threaded, Chain, Stored, Total, Inside;
      Sizes();
      moved := seq(n, _ => []);
      ghost var left := chains;
      Start(n);
      ThreadStart(t, moved);
      var i := 0;
      while i < size && used > 0
        invariant 0 <= i <= size == |left| && |moved| == n && used == Total(left)
        invariant Halfway(moved, n - 1, left)
        invariant table.Length == size && Threaded(t, moved, left, i, if i < |left| then table[i] else null)
        modifies `used, t, entries`next
        decreases size - i
      {
        moved, left := MoveChain(t, n - 1, moved, left, i);
        i := i + 1;
      }
      ThreadEnd(t, moved, left, i, n - 1);
      AllMoved(moved, n - 1, left);
    }

    /** dictExpand: a larger table for the same entries. It is refused when they would
        not fit; otherwise every one of them is linked anew. */
    method Expand(n: nat) returns (ok: bool)
      requires Valid()
      modifies `table, `size, `sizemask, `used, `chains, entries`next
      ensures Valid() && used == old(used)
      ensures ok <==> used <= n
      ensures ok ==> fresh(table) && size >= n && (size == INITIAL_SIZE || size / 2 < n)
      ensures !ok ==> table == old(table) && size == old(size)
    {
      hide Valid, Chain, Stored, Total, PowerOfTwo, Inside;
      Sizes();
      var realsize := NextPower(n);
      if used > n { return false; }
      var t := new Entry?<V>[realsize](_ => null);
      var nused := used;
      ghost var moved := MoveAll(t, realsize);
      Install(t, realsize, nused, moved);
      ok := true;
    }

    lemma ThreadStart(t: array<Entry?<V>>, moved: seq<seq<Entry<V>>>)
      requires Valid() && t.Length == |moved|
      requires forall b :: 0 <= b < |moved| ==> t[b] == null && moved[b] == []
      ensures Threaded(t, moved, chains, 0, if 0 < |chains| then table[0] else null)
    {
      forall b | 0 <= b < |chains| ensures Chain(table[b], chains[b]) { assert InEntries(b); }
    }

    lemma ThreadEnd(t: array<Entry?<V>>, moved: seq<seq<Entry<V>>>, left: seq<seq<Entry<V>>>, i: nat, mask: nat)
      requires i <= |left| == table.Length && Threaded(t, moved, left, i, if i < |left| then table[i] else null)
      requires i == |left| || Total(left) == 0
      ensures Total(left) == 0 && t.Length == |moved|
      ensures forall b :: 0 <= b < |moved| ==> Chain(t[b], moved[b])
    {
      TotalZero(left);
    }

    // ---------- Adding and replacing ----------

    method ExpandIfNeeded() returns (ok: bool)
      requires Valid()
      modifies `table, `size, `sizemask, `used, `chains, entries`next
      ensures Valid() && ok && used == old(used) < size && (table == old(table) || fresh(table))
    {
      hide Filed, Linked;
      ok := true;
      if size == 0 {
        ok := Expand(INITIAL_SIZE);
      } else if used == size {
        ok := Expand(size * 2);
      }
    }

    /** _dictKeyIndex: the slot for a new key, or -1 when the key is there already. The
        table is enlarged first in either case. */
    method KeyIndex(key: Bytes) returns (index: int)
      requires Valid()
      modifies `table, `size, `sizemask, `used, `chains, entries`next
      ensures Valid() && used == old(used) < size && (table == old(table) || fresh(table))
      ensures index == if key in at then -1 else Slot(key, sizemask)
    {
      hide Filed, Linked, Hash, And;
      var ok := ExpandIfNeeded();
      if !ok { return -1; }
      Lookup(key);
      var hash := GenHashFunction(key);
      var h := And(hash, sizemask);
      var he := Scan(table[h], chains[h], key);
      index := if he != null then -1 else h;
    }

    lemma InsertStored(e: Entry<V>, at': map<Bytes, Entry<V>>)
      requires Valid() && size > 0 && e !in entries && e.key !in at && at' == at[e.key := e]
      ensures Slot(e.key, sizemask) < |chains|
      ensures Stored(Put(chains, sizemask, e), sizemask, at')
    {
      hide Hash, And, Inside, Total;
      Lookup(e.key);
      var after := Put(chains, sizemask, e);
      forall b | 0 <= b < |after| ensures Bucket(after[b], b, sizemask, at') {
        assert Bucket(chains[b], b, sizemask, at) && InEntries(b);
      }
    }

    lemma InsertInside(e: Entry<V>, at': map<Bytes, Entry<V>>, k: Bytes)
      requires Valid() && size > 0 && e !in entries && e.key !in at && at' == at[e.key := e] && k in at'
      ensures Slot(e.key, sizemask) < |chains|
      ensures Inside(Put(chains, sizemask, e), sizemask, at', k)
    {
      hide Slot, Stored, Linked, Total;
      Lookup(e.key);
      if k == e.key {
        assert Put(chains, sizemask, e)[Slot(k, sizemask)][0] == e;
      } else {
        assert Inside(chains, sizemask, at, k);
      }
    }

    lemma InsertFiled(e: Entry<V>, at': map<Bytes, Entry<V>>)
      requires Valid() && size > 0 && e !in entries && e.key !in at && at' == at[e.key := e]
      ensures Slot(e.key, sizemask) < |chains|
      ensures Stored(Put(chains, sizemask, e), sizemask, at')
      ensures Total(Put(chains, sizemask, e)) == used + 1 == |at'|
      ensures forall k :: k in at' ==> Inside(Put(chains, sizemask, e), sizemask, at', k) && at'[k] in entries + {e}
    {
      hide Slot, Bucket, Linked, Inside;
      InsertStored(e, at');
      var h := Slot(e.key, sizemask);
      TotalUpdate(chains, h, [e] + chains[h]);
      forall k | k in at' ensures Inside(Put(chains, sizemask, e), sizemask, at', k) { InsertInside(e, at', k); }
    }

    /** The new entry goes to the front of the chain at its slot. */
    method Insert(h: nat, key: Bytes, val: V)
      requires Valid() && key !in at && used < size && h == Slot(key, sizemask) < size
      modifies `chains, `at, `entries, `used, table
      ensures Valid() && key in at && fresh(at[key]) && at[key].val == val && at == old(at)[key := at[key]]
      ensures entries == old(entries) + {at[key]}
    {
      hide Slot, Stored, Inside, Total, Chain;
      var entry := new Entry(key, val, table[h]);
      ghost var at' := at[key := entry];
      InsertFiled(entry, at');
      assert InEntries(h);
      ChainBack(entry, chains[h]);
      table[h] := entry;
      used := used + 1;
      chains, at, entries := Put(chains, sizemask, entry), at', entries + {entry};
      forall b | 0 <= b < |chains| ensures InEntries(b) && Chain(table[b], chains[b]) {
        assert old(InEntries(b) && Chain(table[b], chains[b]));
      }
    }

    /** dictAdd: a new entry, unless the key is there already. */
    method Add(key: Bytes, val: V) returns (ok: bool)
      requires Valid()
      modifies this, table, entries`next
      ensures Valid() && ok == (key !in old(at)) && (table == old(table) || fresh(table))
      ensures old(entries) <= entries && fresh(entries - old(entries))
      ensures Contents() == if ok then old(Contents())[key := val] else old(Contents())
      ensures !ok ==> at == old(at)
      ensures ok ==> key in at && fresh(at[key]) && at[key].val == val && at == old(at)[key := at[key]]
    {
      hide Valid, Slot;
      var index := KeyIndex(key);
      if index == -1 { return false; }
      Room(key);
      Insert(index, key, val);
      ok := true;
    }

    lemma Room(key: Bytes)
      requires Valid() && used < size
      ensures Slot(key, sizemask) < size == table.Length
    {
      hide Filed, Linked, Slot;
      SlotFits(key, size);
    }

    /** dictReplace: the value of the key becomes the given one, whether or not it was there. */
    method Replace(key: Bytes, val: V) returns (added: bool)
      requires Valid()
      modifies this, table, entries
      ensures Valid() && added == (key !in old(at)) && (table == old(table) || fresh(table))
      ensures old(entries) <= entries && fresh(entries - old(entries))
      ensures Contents() == old(Contents())[key := val]
      ensures !added ==> at == old(at)
    {
      hide Valid;
      added := Add(key, val);
      if !added {
        OneEach(key);
        var entry := Find(key);
        entry.val := val;
      }
    }

    lemma OneEach(key: Bytes)
      requires Valid() && key in at
      ensures at[key] in entries
      ensures forall k :: k in at && k != key ==> at[k] != at[key]
    {
      forall k | k in at ensures at[k].key == k && at[k] in entries { assert Inside(chains, sizemask, at, k); }
    }

    // ---------- Deleting ----------

    ghost function Without(h: nat, i: nat): seq<seq<Entry<V>>>
      requires h < |chains| && i < |chains[h]|
      reads `chains
    {
      chains[h := chains[h][..i] + chains[h][i + 1..]]
    }

    lemma DeleteStored(h: nat, i: nat, at': map<Bytes, Entry<V>>)
      requires Valid() && h < |chains| && i < |chains[h]| && at' == at - {chains[h][i].key}
      ensures Stored(Without(h, i), sizemask, at')
    {
      hide Slot, Total;
      var e, after := chains[h][i], Without(h, i);
      assert Bucket(chains[h], h, sizemask, at);
      forall b | 0 <= b < |after| ensures Bucket(after[b], b, sizemask, at') {
        assert Bucket(chains[b], b, sizemask, at);
      }
    }

    lemma DeleteInside(h: nat, i: nat, at': map<Bytes, Entry<V>>, k: Bytes)
      requires Valid() && h < |chains| && i < |chains[h]| && at' == at - {chains[h][i].key} && k in at'
      ensures Inside(Without(h, i), sizemask, at', k)
    {
      hide Slot, Total;
      var c := chains[h];
      assert Bucket(c, h, sizemask, at);
      assert Inside(chains, sizemask, at, k);
      assert c == c[..i] + [c[i]] + c[i + 1..];
    }

    lemma DeleteFiled(h: nat, i: nat, at': map<Bytes, Entry<V>>)
      requires Valid() && h < |chains| && i < |chains[h]| && at' == at - {chains[h][i].key}
      ensures Stored(Without(h, i), sizemask, at') && used > 0
      ensures Total(Without(h, i)) == used - 1 == |at'|
      ensures forall k :: k in at' ==> Inside(Without(h, i), sizemask, at', k) && at'[k] in entries
    {
      hide Slot;
      DeleteStored(h, i, at');
      assert Bucket(chains[h], h, sizemask, at);
      assert at' == map k | k in at && k != chains[h][i].key :: at[k];
      assert at'.Keys == at.Keys - {chains[h][i].key};
      TotalUpdate(chains, h, chains[h][..i] + chains[h][i + 1..]);
      forall k | k in at' ensures Inside(Without(h, i), sizemask, at', k) { DeleteInside(h, i, at', k); }
    }

    lemma AllChains()
      requires Valid()
      ensures table.Length == |chains|
      ensures forall b :: 0 <= b < |chains| ==> InEntries(b) && Chain(table[b], chains[b])
    {}

    /** An entry has only one place. */
    lemma OnePlace(h: nat, j: nat)
      requires Valid() && h < |chains| && j < |chains[h]|
      ensures chains[h][j] in entries
      ensures forall b :: 0 <= b < |chains| && b != h ==> chains[h][j] !in chains[b]
      ensures forall k :: 0 <= k < |chains[h]| && k != j ==> chains[h][j] != chains[h][k]
    {
      assert InEntries(h) && Bucket(chains[h], h, sizemask, at);
      forall b | 0 <= b < |chains| && b != h ensures chains[h][j] !in chains[b] {
        assert Bucket(chains[b], b, sizemask, at);
      }
    }

    /** The entry at place `i` of chain `h` is taken out of it: its predecessor, or the
        table, is linked to its successor. */
    method Relink(h: nat, ghost i: nat, prevde: Entry?<V>, de: Entry<V>)
      requires Valid() && h < |chains| && i < |chains[h]| && de == chains[h][i]
      requires prevde == if i == 0 then null else chains[h][i - 1]
      modifies table, entries`next
      ensures forall b :: 0 <= b < |chains| ==> Chain(table[b], Without(h, i)[b])
    {
      hide Filed, Stored, Inside, Total;
      ghost var c := chains[h];
      AllChains();
      OnePlace(h, if i > 0 then i - 1 else 0);
      assert Link(c, i);
      var head := table[h];
      if prevde != null {
        prevde.next := de.next;
      } else {
        head := de.next;
        table[h] := head;
      }
      forall j | 0 <= j < |c| && j != i - 1 ensures Link(c, j) { assert old(Link(c, j)); }
      CutChain(head, c, i);
    }

    method Unlink(h: nat, ghost i: nat, prevde: Entry?<V>, de: Entry<V>)
      requires Valid() && h < |chains| && i < |chains[h]| && de == chains[h][i]
      requires prevde == if i == 0 then null else chains[h][i - 1]
      modifies `chains, `at, `used, table, entries`next
      ensures Valid() && chains == old(Without(h, i)) && at == old(at) - {de.key}
    {
      hide Stored, Inside, Total, Chain;
      ghost var at' := at - {de.key};
      DeleteFiled(h, i, at');
      AllChains();
      Relink(h, i, prevde, de);
      used := used - 1;
      at := at';
      chains := Without(h, i);
    }

    /** dictDelete: the key is gone, and its chain has lost the one entry at place `i`. */
    method Delete(key: Bytes) returns (ok: bool, ghost i: nat)
      requires Valid()
      modifies `chains, `at, `used, table, entries`next
      ensures Valid() && ok == (key in old(at)) && at == old(at) - {key}
      ensures Contents() == old(Contents()) - {key}
      ensures !ok ==> chains == old(chains)
      ensures ok ==>
        var h := Slot(key, sizemask);
        && h < |old(chains)| && i < |old(chains[h])| && old(chains)[h][i] == old(at)[key] && chains == old(Without(h, i))
    {
      hide Valid, Hash, And;
      i := 0;
      if size == 0 {
        Empty();
        return false, i;
      }
      Lookup(key);
      var hash := GenHashFunction(key);
      var h := And(hash, sizemask);
      ghost var c := chains[h];
      var de := table[h];
      var prevde: Entry?<V> := null;
      while de != null
        invariant Chain(table[h], c)
        invariant i <= |c| && de == Item(c, i) && prevde == if i == 0 then null else c[i - 1]
        invariant forall j :: 0 <= j < i ==> c[j].key != key
        decreases |c| - i
      {
        if de.key == key {
          Unlink(h, i, prevde, de);
          return true, i;
        }
        assert Link(c, i);
        prevde := de;
        de := de.next;
        i := i + 1;
      }
      ok := false;
    }
  }

  // ---------- Any sequence of operations ----------

  datatype Op<V> = Adding(key: Bytes, val: V) | Replacing(key: Bytes, val: V) | Deleting(key: Bytes)

  /** What the operations do to a plain map. */
  ghost function Applied<V>(m: map<Bytes, V>, ops: seq<Op<V>>): map<Bytes, V> {
    if ops == [] then m
    else
      var before := Applied(m, ops[..|ops| - 1]);
      match ops[|ops| - 1]
      case Adding(key, val) => if key in before then before else before[key := val]
      case Replacing(key, val) => before[key := val]
      case Deleting(key) => before - {key}
  }

  /** Whatever has happened before, the last operation on a key decides what is found for
      it: nothing after a deletion, the given value after a replacement, and after an
      addition what was there, or else the given value. */
  lemma {:induction false} LastDecides<V>(m: map<Bytes, V>, before: seq<Op<V>>, op: Op<V>, after: seq<Op<V>>)
    requires forall i :: 0 <= i < |after| ==> after[i].key != op.key
    ensures var now, was, k := Applied(m, before + [op] + after), Applied(m, before), op.key;
      match op
      case Adding(_, val) => k in now && now[k] == if k in was then was[k] else val
      case Replacing(_, val) => k in now && now[k] == val
      case Deleting(_) => k !in now
    decreases |after|
  {
    var ops := before + [op] + after;
    if after == [] {
      assert ops[..|ops| - 1] == before;
    } else {
      var front := after[..|after| - 1];
      assert ops[..|ops| - 1] == before + [op] + front;
      LastDecides(m, before, op, front);
    }
  }

  /** A key that no operation names keeps what it has. */
  lemma {:induction false} OthersStay<V>(m: map<Bytes, V>, ops: seq<Op<V>>, k: Bytes)
    requires forall i :: 0 <= i < |ops| ==> ops[i].key != k
    ensures k in Applied(m, ops) <==> k in m
    ensures k in m ==> Applied(m, ops)[k] == m[k]
    decreases |ops|
  {
    if ops != [] { OthersStay(m, ops[..|ops| - 1], k); }
  }

  /** Through any sequence of operations the table stands for the same map. */
  method Perform<V>(d: Dict<V>, ops: seq<Op<V>>)
    requires d.Valid()
    modifies d, d.table, d.entries
    ensures d.Valid() && d.Contents() == Applied(old(d.Contents()), ops)
  {
    hide Dict.Valid, Dict.Contents;
    for i := 0 to |ops|
      invariant d.Valid() && d.Contents() == Applied(old(d.Contents()), ops[..i])
      invariant d.table == old(d.table) || fresh(d.table)
      invariant old(d.entries) <= d.entries && fresh(d.entries - old(d.entries))
    {
      assert ops[..i + 1][..i] == ops[..i];
      match ops[i]
      case Adding(key, val) =>
        d.SameKeys();
        var _ := d.Add(key, val);
      case Replacing(key, val) =>
        var _ := d.Replace(key, val);
      case Deleting(key) =>
        var _, _ := d.Delete(key);
    }
    assert ops[..|ops|] == ops;
  }
}
