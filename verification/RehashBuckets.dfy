/**
  The hash-link index: files collected under the hash of their name, in buckets
  of linked entries.
 */
module RehashBuckets {

  import opened Options

  const MAX_COLLISIONS: nat := 256
  const NO_ID: nat := 65535
  const SLOTS: nat := 257

  type FileName = string

  /** The bytes of a digest, read as one number. */
  type Digest = nat

  /** The digest of an entry that has been given none yet: all zeros. */
  const NO_DIGEST: Digest := 0

  /** What a bucket is for: certificates or revocation lists, and the hash of a name. */
  datatype Key = Key(kind: nat, hash: nat)

  datatype Item = Item(filename: FileName, oldId: nat, needed: bool, digest: Digest)

  // ---------------------------------------------------------------- a bucket as a value

  function NeededAt(items: seq<Item>): set<int> {
    set i | 0 <= i < |items| && items[i].needed
  }

  function CountNeeded(items: seq<Item>): nat {
    |NeededAt(items)|
  }

  predicate HasDigest(items: seq<Item>, d: Digest) {
    exists i :: 0 <= i < |items| && items[i].digest == d
  }

  /** Position of the entry for a file, or the number of entries. */
  function FindFile(items: seq<Item>, filename: FileName): (i: nat)
    ensures i <= |items| && (i < |items| ==> items[i].filename == filename)
    ensures forall k :: 0 <= k < i ==> items[k].filename != filename
  {
    FindFrom(items, filename, 0)
  }

  function FindFrom(items: seq<Item>, filename: FileName, from: nat): (i: nat)
    requires from <= |items|
    ensures from <= i <= |items| && (i < |items| ==> items[i].filename == filename)
    ensures forall k :: from <= k < i ==> items[k].filename != filename
    decreases |items| - from
  {
    if from == |items| || items[from].filename == filename then from else FindFrom(items, filename, from + 1)
  }

  /** A sighting of a file: a link with an id and no digest, or the file itself with its digest. */
  datatype Sighting = Sighting(filename: FileName, digest: Option<Digest>, need: bool, id: nat)

  function Update(e: Item, s: Sighting): Item
    requires s.need ==> s.digest.Some?
  {
    var e1 := if s.id < e.oldId then e.(oldId := s.id) else e;
    if s.need && !e1.needed then e1.(needed := true, digest := s.digest.value) else e1
  }

  /** Whether a sighting is skipped: its digest is already there. */
  predicate Duplicate(items: seq<Item>, s: Sighting) {
    s.digest.Some? && HasDigest(items, s.digest.value)
  }

  /** Whether a new entry does not fit any more. */
  predicate Full(items: seq<Item>, s: Sighting) {
    FindFile(items, s.filename) == |items| && CountNeeded(items) >= MAX_COLLISIONS
  }

  /** The bucket after a sighting. */
  function Record(items: seq<Item>, s: Sighting): seq<Item>
    requires s.need ==> s.digest.Some?
  {
    if Duplicate(items, s) || Full(items, s) then items
    else
      var (i, all) := (FindFile(items, s.filename), WithEntry(items, s.filename));
      all[i := Update(all[i], s)]
  }

  function WithEntry(items: seq<Item>, filename: FileName): (r: seq<Item>)
    ensures FindFile(items, filename) < |r|
  {
    if FindFile(items, filename) < |items| then items else items + [Item(filename, NO_ID, false, NO_DIGEST)]
  }

  // ---------------------------------------------------------------- a bucket on the heap

  class HEntry {
    var next: HEntry?
    const filename: FileName
    var oldId: nat
    var needed: bool
    var digest: Digest
    ghost const home: Bucket

    constructor (filename: FileName, ghost home: Bucket)
      ensures this.filename == filename && this.home == home && next == null
      ensures View() == Item(filename, NO_ID, false, NO_DIGEST)
    {
      this.filename, oldId, needed, digest, next, this.home := filename, NO_ID, false, NO_DIGEST, null, home;
    }

    ghost function View(): Item
      reads this
    {
      Item(filename, oldId, needed, digest)
    }

    /** Lowers the id and takes over the digest of a file that is needed for the first time. */
    method Apply(s: Sighting) returns (counted: bool)
      requires s.need ==> s.digest.Some?
      modifies this`oldId, this`needed, this`digest
      ensures View() == Update(old(View()), s)
      ensures counted <==> needed && !old(needed)
    {
      if s.id < oldId {
        oldId := s.id;
      }
      counted := s.need && !needed;
      if counted {
        needed := true;
        digest := s.digest.value;
      }
    }
  }

  class Bucket {
    const next: Bucket?
    var first: HEntry?
    var last: HEntry?
    const key: Key
    var numNeeded: nat
    ghost var list: seq<HEntry>
    ghost var items: seq<Item>

    constructor (key: Key, next: Bucket?)
      ensures this.key == key && this.next == next
      ensures Valid() && list == [] && items == []
    {
      this.key, this.next := key, next;
      first, last, numNeeded, list, items := null, null, 0, [], [];
    }

    /** The entries are chained in order, without repeats, from `first` to `last`. */
    ghost predicate Linked()
      reads this, list
    {
      && (forall i, j :: 0 <= i < j < |list| ==> list[i] != list[j])
      && (if list == [] then first == null && last == null else first == list[0] && last == list[|list| - 1])
      && (list != [] ==> list[|list| - 1].next == null)
      && forall i {:trigger list[i].next} :: 0 <= i < |list| - 1 ==> list[i].next == list[i + 1]
    }

    ghost predicate Valid()
      reads this, list
    {
      && Linked() && numNeeded == CountNeeded(items)
      && |items| == |list| && forall i :: 0 <= i < |list| ==> list[i].View() == items[i] && list[i].home == this
    }

    /** Walks the chain for a duplicate digest and for the file's own entry. */
    method Search(s: Sighting) returns (duplicate: bool, found: HEntry?)
      requires Valid()
      ensures duplicate == Duplicate(items, s)
      ensures !duplicate ==> var i := FindFile(items, s.filename);
              if i < |list| then found == list[i] else found == null
      requires NamesUnique(items)
    {
      found := null;
      var ep := first;
      ghost var k := 0;
      while ep != null
        invariant k <= |list| && (if k < |list| then ep == list[k] else ep == null)
        invariant s.digest.Some? ==> !HasDigest(items[..k], s.digest.value)
        invariant if FindFile(items, s.filename) < k then found == list[FindFile(items, s.filename)] else found == null
        decreases |list| - k
      {
        if s.digest.Some? && ep.digest == s.digest.value {
          assert items[k].digest == s.digest.value;
          return true, null;
        }
        if ep.filename == s.filename {
          assert items[k].filename == s.filename;
          found := ep;
          if s.digest.None? {
            return false, found;
          }
        }
        ep := ep.next;
        k := k + 1;
      }
      duplicate := false;
      assert items[..k] == items;
    }

    /** Appends a fresh entry at the end of the chain. */
    method Append(filename: FileName) returns (ep: HEntry)
      requires Valid()
      modifies this`first, this`last, this`list, this`items, list
      ensures fresh(ep) && list == old(list) + [ep] && Valid()
      ensures items == old(items) + [Item(filename, NO_ID, false, NO_DIGEST)]
    {
      ep := new HEntry(filename, this);
      if last != null {
        last.next := ep;
      }
      if first == null {
        first := ep;
      }
      last := ep;
      list := list + [ep];
      CountAppend(items, Item(filename, NO_ID, false, NO_DIGEST));
      items := items + [Item(filename, NO_ID, false, NO_DIGEST)];
    }

    method UpdateEntry(ep: HEntry, ghost i: nat, s: Sighting)
      requires Valid() && i < |list| && list[i] == ep && (s.need ==> s.digest.Some?)
      modifies ep`oldId, ep`needed, ep`digest, this`numNeeded, this`items
      ensures Valid() && items == old(items)[i := Update(old(items)[i], s)]
    {
      var counted := ep.Apply(s);
      if counted {
        numNeeded := numNeeded + 1;
      }
      CountUpdated(items, i, Update(items[i], s));
      items := items[i := Update(items[i], s)];
    }

    /** Finds or appends the entry of a file that is not a duplicate; null when the bucket is full. */
    method Locate(s: Sighting, found: HEntry?) returns (ep: HEntry?)
      requires Valid()
      requires var i := FindFile(items, s.filename);
               if i < |list| then found == list[i] else found == null
      modifies this`first, this`last, this`list, this`items, list
      ensures ep == null <==> Full(old(items), s)
      ensures ep == null ==> list == old(list) && items == old(items) && Valid()
      ensures ep != null ==>
                && FindFile(old(items), s.filename) < |list| && ep == list[FindFile(old(items), s.filename)]
                && Valid() && items == WithEntry(old(items), s.filename)
      ensures forall e :: e in list ==> e in old(list) || fresh(e)
      ensures ep != null ==> ep in old(list) || fresh(ep)
    {
      ep := found;
      if ep == null {
        if numNeeded >= MAX_COLLISIONS {
          return;
        }
        ep := Append(s.filename);
      }
    }

    /** Records a sighting; counts an error when the bucket is full. */
    method Add(s: Sighting) returns (errors: nat)
      requires Valid() && NamesUnique(items) && (s.need ==> s.digest.Some?)
      modifies this`first, this`last, this`list, this`items, this`numNeeded, list
      ensures Valid() && items == Record(old(items), s)
      ensures errors == if !Duplicate(old(items), s) && Full(old(items), s) then 1 else 0
      ensures forall e :: e in list ==> e in old(list) || fresh(e)
    {
      ghost var before := items;
      var duplicate, found := Search(s);
      if duplicate {
        return 0;
      }
      var ep := Locate(s, found);
      if ep == null {
        return 1;
      }
      ghost var i := FindFile(before, s.filename);
      assert items == WithEntry(before, s.filename);
      UpdateEntry(ep, i, s);
      errors := 0;
    }
  }

  lemma CountAppend(items: seq<Item>, e: Item)
    ensures CountNeeded(items + [e]) == CountNeeded(items) + if e.needed then 1 else 0
  {
    assert NeededAt(items + [e]) == NeededAt(items) + if e.needed then {|items|} else {};
  }

  lemma CountUpdated(items: seq<Item>, i: nat, e: Item)
    requires i < |items|
    ensures CountNeeded(items[i := e]) == CountNeeded(items) - (if items[i].needed then 1 else 0) + (if e.needed then 1 else 0)
  {
    var (before, after) := (NeededAt(items), NeededAt(items[i := e]));
    var rest := before - {i};
    assert after - {i} == rest;
    assert before == if items[i].needed then rest + {i} else rest;
    assert after == if e.needed then rest + {i} else rest;
  }

  ghost predicate NamesUnique(items: seq<Item>) {
    forall i, j :: 0 <= i < j < |items| ==> items[i].filename != items[j].filename
  }

  // ---------------------------------------------------------------- the table

  /** The slot of a type and hash; the sum is taken in 32 bits. */
  function SlotOf(key: Key): (slot: nat)
    ensures slot < SLOTS
  {
    (key.kind + key.hash) % 0x1_0000_0000 % SLOTS
  }

  /** The buckets from `head` on, in the order of the links. */
  ghost predicate Chain(head: Bucket?, chain: seq<Bucket>) {
    if chain == [] then head == null else head == chain[0] && Chain(chain[0].next, chain[1..])
  }

  /** The links lead to the same buckets each time, and so a chain that ends has no repeats. */
  lemma {:induction false} ChainUnique(head: Bucket?, chain: seq<Bucket>, other: seq<Bucket>)
    requires Chain(head, chain) && Chain(head, other)
    ensures chain == other
  {
    if chain != [] && other != [] {
      ChainUnique(chain[0].next, chain[1..], other[1..]);
      assert chain == [chain[0]] + chain[1..] && other == [other[0]] + other[1..];
    }
  }

  lemma {:induction false} ChainFrom(head: Bucket?, chain: seq<Bucket>, i: nat)
    requires Chain(head, chain) && i < |chain|
    ensures Chain(chain[i], chain[i..])
  {
    if i == 0 {
      assert chain[0..] == chain;
    } else {
      ChainFrom(chain[0].next, chain[1..], i - 1);
      assert chain[1..][i - 1..] == chain[i..];
    }
  }

  lemma ChainIsAcyclic(head: Bucket?, chain: seq<Bucket>, i: nat, j: nat)
    requires Chain(head, chain) && i < j < |chain|
    ensures chain[i] != chain[j]
  {
    ChainFrom(head, chain, i);
    ChainFrom(head, chain, j);
    if chain[i] == chain[j] {
      ChainUnique(chain[i], chain[i..], chain[j..]);
    }
  }

  /** The first bucket of a chain that has the key. */
  ghost function FindIn(chain: seq<Bucket>, key: Key): Bucket? {
    if chain == [] then null else if chain[0].key == key then chain[0] else FindIn(chain[1..], key)
  }

  /** What the heap holds: the chain of each slot, and the bucket of each key. */
  datatype Shape = Shape(chains: seq<seq<Bucket>>, owner: map<Key, Bucket>, buckets: set<Bucket>)
  {
    /** Each slot starts the chain of its buckets, and a key has one bucket, which its slot leads to. */
    ghost predicate Fits(slots: seq<Bucket?>) {
      Chained(slots) && Owned()
    }

    ghost predicate Chained(slots: seq<Bucket?>) {
      && |slots| == |chains| == SLOTS
      && (forall s :: 0 <= s < SLOTS ==> Chain(slots[s], chains[s]))
      && (forall s, j :: 0 <= s < SLOTS && 0 <= j < |chains[s]| ==> Holds(chains[s][j], s))
    }

    ghost predicate Owned() {
      && |chains| == SLOTS
      && (forall b :: b in buckets ==> b.key in owner && owner[b.key] == b)
      && (forall k :: k in owner ==> owner[k] in buckets && owner[k].key == k && FindIn(chains[SlotOf(k)], k) == owner[k])
    }

    /** A bucket of a slot's chain is the bucket of its key. */
    ghost predicate Holds(b: Bucket, s: nat) {
      SlotOf(b.key) == s && b.key in owner && owner[b.key] == b
    }

    ghost function Prepend(bp: Bucket): Shape
      requires |chains| == SLOTS
    {
      var slot := SlotOf(bp.key);
      this.(chains := chains[slot := [bp] + chains[slot]], owner := owner[bp.key := bp], buckets := buckets + {bp})
    }
  }

  lemma FitsPrepend(sh: Shape, slots: seq<Bucket?>, bp: Bucket)
    requires sh.Fits(slots) && bp.key !in sh.owner && bp.next == slots[SlotOf(bp.key)]
    ensures sh.Prepend(bp).Fits(slots[SlotOf(bp.key) := bp])
  {
    ChainedPrepend(sh, slots, bp);
    OwnedPrepend(sh, bp);
  }

  lemma ChainedPrepend(sh: Shape, slots: seq<Bucket?>, bp: Bucket)
    requires sh.Chained(slots) && bp.key !in sh.owner && bp.next == slots[SlotOf(bp.key)]
    ensures sh.Prepend(bp).Chained(slots[SlotOf(bp.key) := bp])
  {
    var (s, sh') := (SlotOf(bp.key), sh.Prepend(bp));
    assert sh'.chains[s][1..] == sh.chains[s];
    forall t, j | 0 <= t < SLOTS && 0 <= j < |sh'.chains[t]|
      ensures sh'.Holds(sh'.chains[t][j], t)
    {
      if t == s && j > 0 {
        assert sh'.chains[t][j] == sh.chains[t][j - 1];
        assert sh.Holds(sh.chains[t][j - 1], t);
      }
    }
  }

  lemma OwnedPrepend(sh: Shape, bp: Bucket)
    requires sh.Owned() && bp.key !in sh.owner
    ensures sh.Prepend(bp).Owned()
  {
    var s := SlotOf(bp.key);
    assert sh.Prepend(bp).chains[s][1..] == sh.chains[s];
  }

  /** A bucket is well formed and holds each file once. */
  ghost predicate BucketOk(b: Bucket)
    reads b, b.list
  {
    b.Valid() && NamesUnique(b.items)
  }

  /** All buckets are, and their entries are among `entries`. */
  ghost predicate BucketsOk(buckets: set<Bucket>, entries: set<HEntry>)
    reads buckets, entries
  {
    && (forall b, i :: b in buckets && 0 <= i < |b.list| ==> b.list[i] in entries)
    && forall b :: b in buckets ==> BucketOk(b)
  }

  /** The buckets hold what the table says under their keys. */
  ghost predicate Contain(buckets: set<Bucket>, table: map<Key, seq<Item>>)
    reads buckets
  {
    forall b :: b in buckets ==> b.key in table && b.items == table[b.key]
  }

  /** A well-formed table with the given contents, for just the keys that have a bucket. */
  ghost predicate TableIs(slots: seq<Bucket?>, sh: Shape, entries: set<HEntry>, table: map<Key, seq<Item>>)
    reads sh.buckets, entries
  {
    sh.Fits(slots) && sh.owner.Keys == table.Keys && BucketsOk(sh.buckets, entries) && Contain(sh.buckets, table)
  }

  /** Walks the chain of the slot. */
  method FindBucket(slots: seq<Bucket?>, key: Key, ghost sh: Shape) returns (bp: Bucket?)
    requires sh.Fits(slots)
    ensures bp == if key in sh.owner then sh.owner[key] else null
    ensures bp != null ==> bp.key == key && bp in sh.buckets
  {
    bp := slots[SlotOf(key)];
    ghost var (chain, j) := (sh.chains[SlotOf(key)], 0);
    assert chain[0..] == chain;
    while bp != null && bp.key != key
      invariant j <= |chain| && Chain(bp, chain[j..])
      invariant FindIn(chain[j..], key) == FindIn(chain, key)
      decreases |chain| - j
    {
      assert chain[j..][1..] == chain[j + 1..];
      bp, j := bp.next, j + 1;
    }
    if bp != null {
      assert sh.Holds(chain[j], SlotOf(key));
    }
  }

  method FreshBucket(key: Key, next: Bucket?, ghost buckets: set<Bucket>, ghost entries: set<HEntry>, ghost table: map<Key, seq<Item>>)
    returns (bp: Bucket)
    requires BucketsOk(buckets, entries) && Contain(buckets, table) && key !in table
    ensures fresh(bp) && bp.key == key && bp.next == next && bp.list == []
    ensures BucketsOk(buckets + {bp}, entries) && Contain(buckets + {bp}, table[key := []])
  {
    bp := new Bucket(key, next);
  }

  /** Records a sighting in one bucket and adds its new entries to the given ones. */
  method AddHere(bp: Bucket, s: Sighting, ghost entries: set<HEntry>) returns (errors: nat, ghost entries': set<HEntry>)
    requires BucketOk(bp) && (s.need ==> s.digest.Some?) && forall i :: 0 <= i < |bp.list| ==> bp.list[i] in entries
    modifies bp`first, bp`last, bp`list, bp`items, bp`numNeeded, bp.list
    ensures BucketOk(bp) && bp.items == Record(old(bp.items), s) && errors == Errors(old(bp.items), s)
    ensures forall i :: 0 <= i < |bp.list| ==> bp.list[i] in entries'
    ensures entries <= entries' && fresh(entries' - entries)
  {
    RecordKeepsNames(bp.items, s);
    errors := bp.Add(s);
    entries' := entries + set e | e in bp.list;
  }

  /** Records a sighting in one bucket; the other buckets are not touched. */
  method AddTo(bp: Bucket, s: Sighting, ghost buckets: set<Bucket>, ghost entries: set<HEntry>)
    returns (errors: nat, ghost entries': set<HEntry>)
    requires bp in buckets && (s.need ==> s.digest.Some?) && BucketsOk(buckets, entries)
    modifies bp`first, bp`last, bp`list, bp`items, bp`numNeeded, bp.list
    ensures bp.items == Record(old(bp.items), s) && errors == Errors(old(bp.items), s)
    ensures BucketsOk(buckets, entries')
    ensures entries <= entries' && fresh(entries' - entries)
    ensures forall b :: b in buckets && b != bp ==> b.items == old(b.items)
  {
    errors, entries' := AddHere(bp, s, entries);
    forall b | b in buckets && b != bp
      ensures BucketOk(b)
    {
      assert old(allocated(b)) && old(BucketOk(b));
      assert forall i :: 0 <= i < |b.list| ==> b.list[i].home == b;
      assert forall i :: 0 <= i < |b.list| ==> b.list[i] !in old(bp.list);
    }
  }

  /** A new file in a full bucket is an error. */
  function Errors(items: seq<Item>, s: Sighting): nat {
    if !Duplicate(items, s) && Full(items, s) then 1 else 0
  }

  /** An error is counted exactly for a file without an entry, with a digest not seen, when 256 files are needed already. */
  ghost predicate TurnedAway(items: seq<Item>, s: Sighting, errors: nat) {
    && errors <= 1
    && (errors == 1 <==>
          && (forall i :: 0 <= i < |items| ==> items[i].filename != s.filename && s.digest != Some(items[i].digest))
          && |set i | 0 <= i < |items| && items[i].needed| >= 256)
  }

  lemma TurnedAwayIff(items: seq<Item>, s: Sighting)
    ensures TurnedAway(items, s, Errors(items, s))
  {
    assert NeededAt(items) == set i | 0 <= i < |items| && items[i].needed;
  }

  /** The table with a bucket for the key, empty if it had none. */
  function WithKey(table: map<Key, seq<Item>>, key: Key): (r: map<Key, seq<Item>>)
    ensures key in r
  {
    if key in table then table else table[key := []]
  }

  /** Puts a new, empty bucket in front of the chain of its slot. */
  method NewBucket(slots: seq<Bucket?>, key: Key, ghost sh: Shape, ghost entries: set<HEntry>, ghost table: map<Key, seq<Item>>)
    returns (bp: Bucket, slots': seq<Bucket?>, ghost sh': Shape)
    requires TableIs(slots, sh, entries, table) && key !in table
    ensures TableIs(slots', sh', entries, table[key := []])
    ensures bp.key == key && bp in sh'.buckets && fresh(sh'.buckets - sh.buckets) && fresh(bp) && bp.list == []
  {
    var slot := SlotOf(key);
    bp := FreshBucket(key, slots[slot], sh.buckets, entries, table);
    FitsPrepend(sh, slots, bp);
    slots', sh' := slots[slot := bp], sh.Prepend(bp);
  }

  /** Finds the bucket of a key, or puts a new one in front of the chain of its slot. */
  method BucketFor(slots: seq<Bucket?>, key: Key, ghost sh: Shape, ghost entries: set<HEntry>, ghost table: map<Key, seq<Item>>)
    returns (bp: Bucket, slots': seq<Bucket?>, ghost sh': Shape)
    requires TableIs(slots, sh, entries, table)
    ensures TableIs(slots', sh', entries, WithKey(table, key)) && bp in sh'.buckets && bp.key == key
    ensures fresh(sh'.buckets - sh.buckets)
  {
    var b := FindBucket(slots, key, sh);
    if b != null {
      bp, slots', sh' := b, slots, sh;
    } else {
      bp, slots', sh' := NewBucket(slots, key, sh, entries, table);
    }
  }

  /** Records a sighting in a bucket of the table. */
  method AddInTable(bp: Bucket, s: Sighting, slots: seq<Bucket?>, ghost sh: Shape, ghost entries: set<HEntry>, ghost table: map<Key, seq<Item>>)
    returns (errors: nat, ghost entries': set<HEntry>)
    requires TableIs(slots, sh, entries, table) && bp in sh.buckets && (s.need ==> s.digest.Some?)
    modifies sh.buckets, entries
    ensures TableIs(slots, sh, entries', table[bp.key := Record(table[bp.key], s)])
    ensures entries <= entries' && fresh(entries' - entries) && errors == Errors(table[bp.key], s)
  {
    OneBucket(slots, sh, bp);
    errors, entries' := AddContained(bp, s, sh.buckets, entries, table);
  }

  /** The same, for buckets that are alone with their keys. */
  method AddContained(bp: Bucket, s: Sighting, ghost buckets: set<Bucket>, ghost entries: set<HEntry>, ghost table: map<Key, seq<Item>>)
    returns (errors: nat, ghost entries': set<HEntry>)
    requires bp in buckets && (s.need ==> s.digest.Some?) && BucketsOk(buckets, entries) && Contain(buckets, table)
    requires forall b :: b in buckets && b.key == bp.key ==> b == bp
    modifies bp`first, bp`last, bp`list, bp`items, bp`numNeeded, bp.list
    ensures BucketsOk(buckets, entries') && Contain(buckets, table[bp.key := Record(table[bp.key], s)])
    ensures table.Keys == table[bp.key := Record(table[bp.key], s)].Keys
    ensures entries <= entries' && fresh(entries' - entries) && errors == Errors(table[bp.key], s)
  {
    errors, entries' := AddTo(bp, s, buckets, entries);
  }

  lemma OneBucket(slots: seq<Bucket?>, sh: Shape, bp: Bucket)
    requires sh.Fits(slots) && bp in sh.buckets
    ensures bp.key in sh.owner && forall b :: b in sh.buckets && b.key == bp.key ==> b == bp
  {
  }

  /** Records a sighting under its type and hash: its bucket alone changes, and is made if there was none. */
  method AddEntry(slots: seq<Bucket?>, key: Key, s: Sighting, ghost sh: Shape, ghost entries: set<HEntry>, ghost table: map<Key, seq<Item>>)
    returns (errors: nat, slots': seq<Bucket?>, ghost sh': Shape, ghost entries': set<HEntry>)
    requires TableIs(slots, sh, entries, table) && (s.need ==> s.digest.Some?)
    modifies sh.buckets, entries
    ensures fresh(sh'.buckets - sh.buckets) && fresh(entries' - entries)
    ensures TurnedAway(WithKey(table, key)[key], s, errors)
    ensures TableIs(slots', sh', entries', Enter(table, Call(key, s)))
  {
    var bp;
    bp, slots', sh' := BucketFor(slots, key, sh, entries, table);
    ghost var whole := WithKey(table, key);
    errors, entries' := AddInTable(bp, s, slots', sh', entries, whole);
    TurnedAwayIff(whole[key], s);
  }

  // ---------------------------------------------------------------- what every sighting keeps

  /** Needed entries have pairwise different digests. */
  ghost predicate DigestsUnique(items: seq<Item>) {
    forall i, j :: 0 <= i < j < |items| && items[i].needed && items[j].needed ==> items[i].digest != items[j].digest
  }

  lemma RecordKeepsNames(items: seq<Item>, s: Sighting)
    requires NamesUnique(items) && (s.need ==> s.digest.Some?)
    ensures NamesUnique(Record(items, s))
  {
  }

  lemma RecordKeepsDigests(items: seq<Item>, s: Sighting)
    requires DigestsUnique(items) && (s.need ==> s.digest.Some?)
    ensures DigestsUnique(Record(items, s))
  {
    var i := FindFile(items, s.filename);
    var (all, r) := (WithEntry(items, s.filename), Record(items, s));
    if !Duplicate(items, s) && !Full(items, s) {
      assert forall k :: 0 <= k < |r| && k != i ==> k < |items| && r[k] == items[k];
      assert s.digest.Some? ==> forall k :: 0 <= k < |items| ==> items[k].digest != s.digest.value;
    }
  }

  /** All sightings of one type and hash, in order, starting from an empty bucket. */
  function Collect(sightings: seq<Sighting>): seq<Item>
    requires forall i :: 0 <= i < |sightings| && sightings[i].need ==> sightings[i].digest.Some?
  {
    if sightings == [] then []
    else Record(Collect(sightings[..|sightings| - 1]), sightings[|sightings| - 1])
  }

  /** The ids recorded for a file: those of its sightings that were neither duplicates nor turned away. */
  ghost function RecordedIds(sightings: seq<Sighting>, filename: FileName): set<nat>
    requires forall i :: 0 <= i < |sightings| && sightings[i].need ==> sightings[i].digest.Some?
  {
    if sightings == [] then {}
    else
      var (before, s) := (sightings[..|sightings| - 1], sightings[|sightings| - 1]);
      RecordedIds(before, filename) +
      if s.filename == filename && !Duplicate(Collect(before), s) && !Full(Collect(before), s) then {s.id} else {}
  }

  ghost predicate IsLeast(id: nat, ids: set<nat>) {
    (id == NO_ID || id in ids) && forall x :: x in ids ==> id <= x
  }

  /**
    After any sightings: a file has one entry, needed entries have different
    digests, and the id of an entry is the least recorded for it (65535 if none
    is lower).
   */
  lemma {:induction false} CollectedBucket(sightings: seq<Sighting>)
    requires forall i :: 0 <= i < |sightings| ==> sightings[i].id <= NO_ID && (sightings[i].need ==> sightings[i].digest.Some?)
    ensures NamesUnique(Collect(sightings)) && DigestsUnique(Collect(sightings))
    ensures forall i :: 0 <= i < |Collect(sightings)| ==>
              IsLeast(Collect(sightings)[i].oldId, RecordedIds(sightings, Collect(sightings)[i].filename))
    ensures forall name :: FindFile(Collect(sightings), name) == |Collect(sightings)| ==> RecordedIds(sightings, name) == {}
  {
    if sightings != [] {
      var n := |sightings| - 1;
      var (before, s) := (sightings[..n], sightings[n]);
      CollectedBucket(before);
      var (items, r) := (Collect(before), Collect(sightings));
      RecordKeepsNames(items, s);
      RecordKeepsDigests(items, s);
      var at := FindFile(items, s.filename);
      forall name | FindFile(r, name) == |r|
        ensures RecordedIds(sightings, name) == {}
      {
        StaysMissing(items, s, name);
      }
      forall i | 0 <= i < |r|
        ensures IsLeast(r[i].oldId, RecordedIds(sightings, r[i].filename))
      {
        if i < |items| {
          assert r[i].filename == items[i].filename;
          assert IsLeast(items[i].oldId, RecordedIds(before, items[i].filename));
        }
      }
    }
  }

  /** The digest with which a file was first needed by a sighting that was recorded. */
  ghost function NeededAs(sightings: seq<Sighting>, filename: FileName): Option<Digest>
    requires forall i :: 0 <= i < |sightings| && sightings[i].need ==> sightings[i].digest.Some?
  {
    if sightings == [] then None
    else
      var (before, s) := (sightings[..|sightings| - 1], sightings[|sightings| - 1]);
      if NeededAs(before, filename).Some? then NeededAs(before, filename)
      else if s.filename == filename && s.need && !Duplicate(Collect(before), s) && !Full(Collect(before), s) then s.digest
      else None
  }

  /** An entry is needed if and only if a recorded sighting needed its file, and has the digest of the first one that did. */
  ghost predicate AsNeeded(e: Item, digest: Option<Digest>) {
    e.needed == digest.Some? && e.digest == if digest.Some? then digest.value else NO_DIGEST
  }

  /**
    After any sightings: an entry is needed if and only if a recorded sighting
    needed its file, and then has the digest of the first one that did; a file
    without an entry was not needed by any.
   */
  lemma {:induction false} CollectedNeeds(sightings: seq<Sighting>)
    requires forall i :: 0 <= i < |sightings| && sightings[i].need ==> sightings[i].digest.Some?
    ensures NamesUnique(Collect(sightings))
    ensures forall i :: 0 <= i < |Collect(sightings)| ==> AsNeeded(Collect(sightings)[i], NeededAs(sightings, Collect(sightings)[i].filename))
    ensures forall name :: FindFile(Collect(sightings), name) == |Collect(sightings)| ==> NeededAs(sightings, name) == None
  {
    if sightings != [] {
      var n := |sightings| - 1;
      var (before, s) := (sightings[..n], sightings[n]);
      CollectedNeeds(before);
      var (items, r) := (Collect(before), Collect(sightings));
      RecordKeepsNames(items, s);
      forall name | FindFile(r, name) == |r|
        ensures NeededAs(sightings, name) == None
      {
        StaysMissing(items, s, name);
      }
      forall i | 0 <= i < |r|
        ensures AsNeeded(r[i], NeededAs(sightings, r[i].filename))
      {
        if i < |items| {
          assert r[i].filename == items[i].filename;
          assert AsNeeded(items[i], NeededAs(before, items[i].filename));
          SameFile(items, s, i);
        }
      }
    }
  }

  /** Only the entry of the sighting's file can change. */
  lemma SameFile(items: seq<Item>, s: Sighting, i: nat)
    requires i < |items| && (s.need ==> s.digest.Some?)
    ensures var at := FindFile(items, s.filename);
            Record(items, s)[i] == if !Duplicate(items, s) && !Full(items, s) && i == at then Update(items[i], s) else items[i]
  {
  }

  lemma StaysMissing(items: seq<Item>, s: Sighting, name: FileName)
    requires s.need ==> s.digest.Some?
    requires FindFile(Record(items, s), name) == |Record(items, s)|
    ensures FindFile(items, name) == |items|
    ensures name == s.filename ==> Duplicate(items, s) || Full(items, s)
  {
    var r := Record(items, s);
    assert forall k :: 0 <= k < |items| ==> r[k].filename == items[k].filename;
    if !Duplicate(items, s) && !Full(items, s) {
      assert r[FindFile(items, s.filename)].filename == s.filename;
    }
  }

  /**
    The limit on needed entries is checked only for files not seen before: it is
    passed exactly when a file that is known, and not needed yet, is needed in a
    bucket that already holds the limit.
   */
  lemma LimitPassedIff(items: seq<Item>, s: Sighting)
    requires CountNeeded(items) <= MAX_COLLISIONS && (s.need ==> s.digest.Some?)
    ensures CountNeeded(Record(items, s)) > MAX_COLLISIONS <==>
            && CountNeeded(items) == MAX_COLLISIONS && s.need && !Duplicate(items, s)
            && FindFile(items, s.filename) < |items| && !items[FindFile(items, s.filename)].needed
  {
    if !Duplicate(items, s) && !Full(items, s) {
      var (i, all) := (FindFile(items, s.filename), WithEntry(items, s.filename));
      CountAppend(items, Item(s.filename, NO_ID, false, NO_DIGEST));
      CountUpdated(all, i, Update(all[i], s));
    }
  }

  function Letter(d: nat): (c: char)
    requires d <= 16
    ensures c as int == 'a' as int + d
  {
    ('a' as int + d) as char
  }

  /** Different short names, for as many files as a bucket holds. */
  function NameOf(i: nat): (name: FileName)
    requires i <= MAX_COLLISIONS
    ensures |name| == 3
  {
    ['n', Letter(i / 16), Letter(i % 16)]
  }

  lemma NamesOfDiffer(i: nat, j: nat)
    requires i < j <= MAX_COLLISIONS
    ensures NameOf(i) != NameOf(j)
  {
    assert i / 16 != j / 16 || i % 16 != j % 16;
    assert NameOf(i)[1] != NameOf(j)[1] || NameOf(i)[2] != NameOf(j)[2];
  }

  /** A link to a file, and then `k` other files with digests of their own. */
  function Crowd(k: nat): (r: seq<Sighting>)
    requires k <= MAX_COLLISIONS
    ensures |r| == k + 1 && r[0] == Sighting("f", None, false, 0)
    ensures forall i :: 1 <= i <= k ==> r[i] == Sighting(NameOf(i), Some(i), true, NO_ID)
  {
    [Sighting("f", None, false, 0)] + seq(k, i requires 0 <= i < k => Sighting(NameOf(i + 1), Some(i + 1), true, NO_ID))
  }

  ghost predicate Crowded(items: seq<Item>, k: nat)
    requires k <= MAX_COLLISIONS
  {
    && |items| == k + 1 && items[0] == Item("f", 0, false, NO_DIGEST)
    && forall i :: 1 <= i <= k ==> items[i] == Item(NameOf(i), NO_ID, true, i)
  }

  lemma CrowdGrows(items: seq<Item>, k: nat)
    requires k < MAX_COLLISIONS && Crowded(items, k) && CountNeeded(items) == k
    ensures var items' := Record(items, Sighting(NameOf(k + 1), Some(k + 1), true, NO_ID));
            Crowded(items', k + 1) && CountNeeded(items') == k + 1
  {
    var s := Sighting(NameOf(k + 1), Some(k + 1), true, NO_ID);
    forall i | 0 <= i < |items|
      ensures items[i].digest != k + 1 && items[i].filename != s.filename
    {
      if i > 0 {
        NamesOfDiffer(i, k + 1);
      }
    }
    assert !Duplicate(items, s) && FindFile(items, s.filename) == |items|;
    var e := Update(Item(s.filename, NO_ID, false, NO_DIGEST), s);
    assert Record(items, s) == items + [e];
    CountAppend(items, e);
  }

  lemma {:induction false} CrowdCollected(k: nat)
    requires k <= MAX_COLLISIONS
    ensures Crowded(Collect(Crowd(k)), k) && CountNeeded(Collect(Crowd(k))) == k
  {
    if k == 0 {
      FirstCollected(Crowd(0));
    } else {
      CrowdCollected(k - 1);
      CrowdCollectsMore(k);
    }
  }

  lemma CrowdCollectsMore(k: nat)
    requires 0 < k <= MAX_COLLISIONS && Crowded(Collect(Crowd(k - 1)), k - 1) && CountNeeded(Collect(Crowd(k - 1))) == k - 1
    ensures Crowded(Collect(Crowd(k)), k) && CountNeeded(Collect(Crowd(k))) == k
  {
    CrowdPrefix(k);
    OneMoreCollected(Crowd(k - 1), Crowd(k), k);
  }

  lemma OneMoreCollected(before: seq<Sighting>, all: seq<Sighting>, k: nat)
    requires 0 < k <= MAX_COLLISIONS && |before| == k && |all| == k + 1 && before <= all
    requires forall i :: 0 <= i < |all| && all[i].need ==> all[i].digest.Some?
    requires all[k] == Sighting(NameOf(k), Some(k), true, NO_ID)
    requires Crowded(Collect(before), k - 1) && CountNeeded(Collect(before)) == k - 1
    ensures Crowded(Collect(all), k) && CountNeeded(Collect(all)) == k
  {
    LastCollected(before, all);
    CrowdGrows(Collect(before), k - 1);
  }

  lemma CrowdPrefix(k: nat)
    requires 0 < k <= MAX_COLLISIONS
    ensures Crowd(k - 1) <= Crowd(k)
  {
  }

  lemma LastCollected(before: seq<Sighting>, all: seq<Sighting>)
    requires |all| == |before| + 1 && before <= all
    requires forall i :: 0 <= i < |all| && all[i].need ==> all[i].digest.Some?
    ensures Collect(all) == Record(Collect(before), all[|before|])
  {
    assert all[..|before|] == before;
  }

  lemma FirstCollected(crowd: seq<Sighting>)
    requires crowd == [Sighting("f", None, false, 0)]
    ensures Crowded(Collect(crowd), 0) && CountNeeded(Collect(crowd)) == 0
  {
    var e := Item("f", 0, false, NO_DIGEST);
    assert Collect(crowd[..0]) == [] && NeededAt([]) == {};
    assert Record([], crowd[0]) == [e];
    assert NeededAt([e]) == {};
  }

  /** The limit can be passed: a link to a file is seen, 256 other files fill the bucket, and then comes the file itself. */
  lemma LimitIsPassed()
    ensures CountNeeded(Collect(Crowd(MAX_COLLISIONS) + [Sighting("f", Some(1000), true, NO_ID)])) == MAX_COLLISIONS + 1
  {
    var (crowd, s) := (Crowd(MAX_COLLISIONS), Sighting("f", Some(1000), true, NO_ID));
    var items := Collect(crowd);
    CrowdCollected(MAX_COLLISIONS);
    assert (crowd + [s])[..|crowd|] == crowd;
    assert FindFile(items, "f") == 0 && !Duplicate(items, s);
    CountUpdated(items, 0, Update(items[0], s));
  }

  // ---------------------------------------------------------------- the whole table

  /** One sighting and where it belongs. */
  datatype Call = Call(key: Key, sighting: Sighting)

  ghost predicate CallsOk(calls: seq<Call>) {
    forall i :: 0 <= i < |calls| ==> calls[i].sighting.need ==> calls[i].sighting.digest.Some?
  }

  /** What each call does to the contents of the table. */
  function Enter(table: map<Key, seq<Item>>, call: Call): map<Key, seq<Item>>
    requires call.sighting.need ==> call.sighting.digest.Some?
  {
    WithKey(table, call.key)[call.key := Record(WithKey(table, call.key)[call.key], call.sighting)]
  }

  function EnterAll(calls: seq<Call>): map<Key, seq<Item>>
    requires CallsOk(calls)
  {
    if calls == [] then map[] else Enter(EnterAll(calls[..|calls| - 1]), calls[|calls| - 1])
  }

  /** The sightings under one key, in order. */
  function SightingsOf(calls: seq<Call>, key: Key): (r: seq<Sighting>)
    requires CallsOk(calls)
    ensures forall i :: 0 <= i < |r| && r[i].need ==> r[i].digest.Some?
  {
    if calls == [] then []
    else
      var (before, last) := (calls[..|calls| - 1], calls[|calls| - 1]);
      SightingsOf(before, key) + if last.key == key then [last.sighting] else []
  }

  /** After any calls, a key has a bucket if and only if it was seen, holding what its own sightings make. */
  lemma {:induction false} TableIsCollected(calls: seq<Call>, key: Key)
    requires CallsOk(calls)
    ensures key in EnterAll(calls) <==> SightingsOf(calls, key) != []
    ensures key in EnterAll(calls) ==> EnterAll(calls)[key] == Collect(SightingsOf(calls, key))
  {
    if calls != [] {
      var (before, last) := (calls[..|calls| - 1], calls[|calls| - 1]);
      TableIsCollected(before, key);
      if last.key == key {
        var (seen, all) := (SightingsOf(before, key), SightingsOf(calls, key));
        assert all[..|all| - 1] == seen;
        assert Collect(all) == Record(Collect(seen), last.sighting);
      } else {
        assert SightingsOf(calls, key) == SightingsOf(before, key);
        assert EnterAll(calls) == Enter(EnterAll(before), last);
      }
    }
  }

  lemma EnterMore(calls: seq<Call>, n: nat)
    requires n < |calls| && CallsOk(calls)
    ensures EnterAll(calls[..n + 1]) == Enter(EnterAll(calls[..n]), calls[n])
  {
    assert calls[..n + 1][..n] == calls[..n];
  }

  /**
    Any sequence of calls on an empty table: the buckets on the heap are linked,
    one for each key that was seen, and hold what the sightings make.
   */
  method AddEntries(calls: seq<Call>) returns (slots: seq<Bucket?>, ghost sh: Shape, ghost entries: set<HEntry>)
    requires CallsOk(calls)
    ensures TableIs(slots, sh, entries, EnterAll(calls))
  {
    slots, sh, entries := EmptyTable();
    ghost var table: map<Key, seq<Item>> := map[];
    for n := 0 to |calls|
      invariant table == EnterAll(calls[..n]) && TableIs(slots, sh, entries, table)
      invariant fresh(sh.buckets) && fresh(entries)
    {
      EnterMore(calls, n);
      var errors;
      errors, slots, sh, entries := AddEntry(slots, calls[n].key, calls[n].sighting, sh, entries, table);
      table := Enter(table, Call(calls[n].key, calls[n].sighting));
    }
    EnterTaken(calls);
  }

  lemma EnterTaken(calls: seq<Call>)
    requires CallsOk(calls)
    ensures EnterAll(calls[..|calls|]) == EnterAll(calls)
  {
    assert calls[..|calls|] == calls;
  }

  method EmptyTable() returns (slots: seq<Bucket?>, ghost sh: Shape, ghost entries: set<HEntry>)
    ensures TableIs(slots, sh, entries, map[]) && sh.buckets == {} && entries == {}
  {
    slots, sh, entries := seq(SLOTS, i => null), Shape(seq(SLOTS, i => []), map[], {}), {};
  }
}
