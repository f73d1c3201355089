/**
  Numbering the hash links of one bucket.

  A link that already exists under a low enough id is left as it is; every other
  needed file gets the first id free in a bitmap; what is left over is removed.
 */
module RehashIds {

  import opened RehashBuckets

  /** The entries of a bucket: here only whether a file needs a link, and the id of a link seen for it, count. */
  type File = Item

  datatype Action = Keep(id: nat) | Create(id: nat) | Remove(id: nat)

  // ---------------------------------------------------------------- ids as sets

  /** The ids below `n` that links in the directory already use. */
  function LowIds(files: seq<File>, n: nat): set<nat> {
    set i | 0 <= i < |files| && files[i].oldId < n :: files[i].oldId
  }

  /** First id at or above `from` that is not in the mask. */
  function FirstFree(mask: set<nat>, from: nat): (id: nat)
    ensures id >= from && id !in mask && forall k: nat :: from <= k < id ==> k in mask
    decreases |mask|
  {
    if from !in mask then from
    else
      var id := FirstFree(mask - {from}, from + 1);
      forall k: nat | from <= k < id ensures k in mask {
        assert k == from || k in mask - {from};
      }
      id
  }

  /** What has been decided so far, the ids in use, and where the next search starts. */
  datatype Pass = Pass(actions: seq<Action>, mask: set<nat>, next: nat)

  function Step(p: Pass, f: File, n: nat): Pass {
    if f.oldId < n then p.(actions := p.actions + [Keep(f.oldId)])
    else if f.needed then
      var id := FirstFree(p.mask, p.next);
      Pass(p.actions + [Create(id)], p.mask + {id}, id)
    else p.(actions := p.actions + [Remove(f.oldId)])
  }

  /** What the pass does with the first `k` files. */
  function Assign(files: seq<File>, n: nat, mask: set<nat>, k: nat): (p: Pass)
    requires k <= |files|
    ensures |p.actions| == k
  {
    if k == 0 then Pass([], mask, 0) else Step(Assign(files, n, mask, k - 1), files[k - 1], n)
  }

  /** The needed files have exactly the ids 0 to n-1, once each. */
  ghost predicate Exact(files: seq<File>, actions: seq<Action>, n: nat)
    requires |actions| == |files|
  {
    && (forall i :: 0 <= i < |files| && files[i].needed ==> actions[i].id < n)
    && (forall i, j :: 0 <= i < j < |files| && files[i].needed && files[j].needed ==> actions[i].id != actions[j].id)
    && (forall id: nat :: id < n ==> Used(files, actions, id))
  }

  ghost predicate Used(files: seq<File>, actions: seq<Action>, id: nat)
    requires |actions| == |files|
  {
    exists i :: 0 <= i < |files| && files[i].needed && actions[i].id == id
  }

  ghost predicate LowDistinct(files: seq<File>, n: nat) {
    forall i, j :: 0 <= i < j < |files| && files[i].needed && files[j].needed && files[i].oldId < n && files[j].oldId < n
                   ==> files[i].oldId != files[j].oldId
  }

  ghost predicate LowUnneededCovered(files: seq<File>, n: nat) {
    forall i :: 0 <= i < |files| && !files[i].needed && files[i].oldId < n ==> LowNeeded(files, n, files[i].oldId)
  }

  ghost predicate LowNeeded(files: seq<File>, n: nat, id: nat) {
    exists i :: 0 <= i < |files| && files[i].needed && files[i].oldId == id < n
  }

  /** No two needed files share a low id, and a low id of an unneeded file is also that of a needed one. */
  ghost predicate Numberable(files: seq<File>, n: nat) {
    LowDistinct(files, n) && LowUnneededCovered(files, n)
  }

  // ---------------------------------------------------------------- only then

  lemma {:induction false} MaskGrows(files: seq<File>, n: nat, mask: set<nat>, k: nat)
    requires k <= |files|
    ensures mask <= Assign(files, n, mask, k).mask
    ensures forall i :: 0 <= i < k && Assign(files, n, mask, k).actions[i].Create? ==> Assign(files, n, mask, k).actions[i].id !in mask
    ensures forall i :: 0 <= i < k && files[i].oldId < n ==> Assign(files, n, mask, k).actions[i] == Keep(files[i].oldId)
    ensures forall i :: 0 <= i < k ==> (Assign(files, n, mask, k).actions[i].Create? <==> files[i].oldId >= n && files[i].needed)
  {
    if k > 0 {
      MaskGrows(files, n, mask, k - 1);
    }
  }

  lemma ExactNeedsNumberable(files: seq<File>, n: nat, junk: set<nat>)
    requires Exact(files, Assign(files, n, LowIds(files, n) + junk, |files|).actions, n)
    ensures Numberable(files, n)
  {
    var mask := LowIds(files, n) + junk;
    var actions := Assign(files, n, mask, |files|).actions;
    MaskGrows(files, n, mask, |files|);
    forall u | 0 <= u < |files| && !files[u].needed && files[u].oldId < n
      ensures LowNeeded(files, n, files[u].oldId)
    {
      var id := files[u].oldId;
      assert id in mask;
      assert Used(files, actions, id);
      var i :| 0 <= i < |files| && files[i].needed && actions[i].id == id;
      assert files[i].oldId < n;
    }
  }

  // ---------------------------------------------------------------- counting

  function Range(n: nat): (r: set<nat>)
    ensures |r| == n && forall x: nat :: x in r <==> x < n
  {
    if n == 0 then {} else Range(n - 1) + {n - 1}
  }

  lemma {:induction false} SubsetSize(a: set<nat>, b: set<nat>)
    requires a <= b
    ensures |a| <= |b| && (|a| == |b| ==> a == b)
  {
    if a != {} {
      var x :| x in a;
      SubsetSize(a - {x}, b - {x});
    }
  }

  /** A set of fewer than `n` ids below `n` leaves one out. */
  lemma PigeonHole(s: set<nat>, n: nat) returns (free: nat)
    requires s <= Range(n) && |s| < n
    ensures free < n && free !in s
  {
    if Range(n) <= s {
      SubsetSize(Range(n), s);
    }
    free :| free in Range(n) && free !in s;
  }

  function LowNeededIds(files: seq<File>, n: nat, k: nat): set<nat>
    requires k <= |files|
  {
    set i | 0 <= i < k && files[i].needed && files[i].oldId < n :: files[i].oldId
  }

  function CreatedIds(actions: seq<Action>): set<nat> {
    set i | 0 <= i < |actions| && actions[i].Create? :: actions[i].id
  }

  /** Files among the first `k` that keep a low id, and those that need a new one. */
  function CountLow(files: seq<File>, n: nat, k: nat): nat
    requires k <= |files|
  {
    if k == 0 then 0 else (if files[k - 1].needed && files[k - 1].oldId < n then 1 else 0) + CountLow(files, n, k - 1)
  }

  function CountHigh(files: seq<File>, n: nat, k: nat): nat
    requires k <= |files|
  {
    if k == 0 then 0 else (if files[k - 1].needed && files[k - 1].oldId >= n then 1 else 0) + CountHigh(files, n, k - 1)
  }

  lemma {:induction false} CountsAddUp(files: seq<File>, n: nat, k: nat)
    requires k <= |files|
    ensures CountNeeded(files[..k]) == CountLow(files, n, k) + CountHigh(files, n, k)
  {
    if k > 0 {
      CountsAddUp(files, n, k - 1);
      assert files[..k] == files[..k - 1] + [files[k - 1]];
      CountAppend(files[..k - 1], files[k - 1]);
    }
  }

  lemma {:induction false} HighCountRises(files: seq<File>, n: nat, k: nat, m: nat)
    requires k <= m <= |files|
    ensures CountHigh(files, n, k) <= CountHigh(files, n, m)
  {
    if k < m {
      HighCountRises(files, n, k, m - 1);
    }
  }

  lemma {:induction false} LowIdsCounted(files: seq<File>, n: nat, k: nat)
    requires k <= |files| && LowDistinct(files, n)
    ensures |LowNeededIds(files, n, k)| == CountLow(files, n, k)
  {
    if k > 0 {
      LowIdsCounted(files, n, k - 1);
      NextLowId(files, n, k - 1);
    }
  }

  lemma NextLowId(files: seq<File>, n: nat, k: nat)
    requires k < |files| && LowDistinct(files, n)
    ensures LowNeededIds(files, n, k + 1) ==
            LowNeededIds(files, n, k) + if files[k].needed && files[k].oldId < n then {files[k].oldId} else {}
    ensures files[k].needed && files[k].oldId < n ==> files[k].oldId !in LowNeededIds(files, n, k)
  {
  }

  // ---------------------------------------------------------------- and exactly then

  /** Half way through: `count` new ids, below `n`, all different and not in use, and nothing below the cursor is free. */
  ghost predicate Midway(p: Pass, low: set<nat>, junk: set<nat>, n: nat, count: nat) {
    && p.mask == low + junk + CreatedIds(p.actions)
    && CreatedIds(p.actions) <= Range(n) && CreatedIds(p.actions) !! low
    && |CreatedIds(p.actions)| == count
    && CreatedDistinct(p.actions)
    && forall x: nat :: x < p.next ==> x in p.mask
  }

  ghost predicate CreatedDistinct(actions: seq<Action>) {
    forall i, j :: 0 <= i < j < |actions| && actions[i].Create? && actions[j].Create? ==> actions[i].id != actions[j].id
  }

  lemma NewIdIsLow(p: Pass, low: set<nat>, junk: set<nat>, n: nat, count: nat)
    requires Midway(p, low, junk, n, count) && low <= Range(n) && |low| + count < n
    requires forall x :: x in junk ==> x >= n
    ensures FirstFree(p.mask, p.next) < n
  {
    var free := PigeonHole(low + CreatedIds(p.actions), n);
    assert free !in p.mask;
  }

  lemma CreatedAppend(actions: seq<Action>, a: Action)
    ensures CreatedIds(actions + [a]) == CreatedIds(actions) + (if a.Create? then {a.id} else {})
  {
    var all := actions + [a];
    forall x | x in CreatedIds(actions)
      ensures x in CreatedIds(all)
    {
      var i :| 0 <= i < |actions| && actions[i].Create? && actions[i].id == x;
      assert all[i] == actions[i];
    }
    if a.Create? {
      assert all[|actions|] == a;
    }
  }

  lemma DistinctAppend(actions: seq<Action>, a: Action)
    requires CreatedDistinct(actions) && (a.Create? ==> a.id !in CreatedIds(actions))
    ensures CreatedDistinct(actions + [a])
  {
    forall i | 0 <= i < |actions| && actions[i].Create?
      ensures actions[i].id in CreatedIds(actions)
    {
    }
  }

  lemma StepKeepsMidway(p: Pass, f: File, low: set<nat>, junk: set<nat>, n: nat, count: nat)
    requires Midway(p, low, junk, n, count) && low <= Range(n)
    requires forall x :: x in junk ==> x >= n
    requires f.needed && f.oldId >= n ==> |low| + count < n
    ensures Midway(Step(p, f, n), low, junk, n, count + if f.needed && f.oldId >= n then 1 else 0)
  {
    var q := Step(p, f, n);
    var a := q.actions[|p.actions|];
    assert q.actions == p.actions + [a];
    CreatedAppend(p.actions, a);
    DistinctAppend(p.actions, a);
    if f.needed && f.oldId >= n {
      NewIdIsLow(p, low, junk, n, count);
      CreateKeepsMidway(p, q, a.id, low, junk, n, count);
    } else {
      assert CreatedIds(q.actions) == CreatedIds(p.actions);
    }
  }

  lemma CreateKeepsMidway(p: Pass, q: Pass, id: nat, low: set<nat>, junk: set<nat>, n: nat, count: nat)
    requires Midway(p, low, junk, n, count) && id < n && id == FirstFree(p.mask, p.next)
    requires q.mask == p.mask + {id} && q.next == id
    requires CreatedIds(q.actions) == CreatedIds(p.actions) + {id} && CreatedDistinct(q.actions)
    ensures Midway(q, low, junk, n, count + 1)
  {
    assert q.mask == low + junk + CreatedIds(q.actions);
  }

  lemma LowIsNeeded(files: seq<File>, n: nat)
    requires LowUnneededCovered(files, n)
    ensures LowIds(files, n) == LowNeededIds(files, n, |files|)
  {
    forall x | x in LowIds(files, n)
      ensures x in LowNeededIds(files, n, |files|)
    {
      var i :| 0 <= i < |files| && files[i].oldId == x < n;
      if !files[i].needed {
        assert LowNeeded(files, n, x);
      }
    }
  }

  lemma LowFits(files: seq<File>, n: nat)
    requires n == CountNeeded(files) && Numberable(files, n)
    ensures LowIds(files, n) <= Range(n) && |LowIds(files, n)| + CountHigh(files, n, |files|) == n
  {
    LowIsNeeded(files, n);
    LowIdsCounted(files, n, |files|);
    CountsAddUp(files, n, |files|);
    assert files[..|files|] == files;
  }

  lemma {:induction false} AlwaysMidway(files: seq<File>, n: nat, junk: set<nat>, k: nat)
    requires k <= |files| && n == CountNeeded(files) && Numberable(files, n)
    requires forall x :: x in junk ==> x >= n
    ensures Midway(Assign(files, n, LowIds(files, n) + junk, k), LowIds(files, n), junk, n, CountHigh(files, n, k))
  {
    var low := LowIds(files, n);
    if k == 0 {
      assert CreatedIds([]) == {};
    } else {
      AlwaysMidway(files, n, junk, k - 1);
      LowFits(files, n);
      HighCountRises(files, n, k, |files|);
      StepKeepsMidway(Assign(files, n, low + junk, k - 1), files[k - 1], low, junk, n, CountHigh(files, n, k - 1));
    }
  }

  lemma UsedIdsFillRange(files: seq<File>, n: nat, junk: set<nat>)
    requires n == CountNeeded(files) && Numberable(files, n)
    requires forall x :: x in junk ==> x >= n
    ensures LowIds(files, n) + CreatedIds(Assign(files, n, LowIds(files, n) + junk, |files|).actions) == Range(n)
  {
    AlwaysMidway(files, n, junk, |files|);
    LowFits(files, n);
    SubsetSize(LowIds(files, n) + CreatedIds(Assign(files, n, LowIds(files, n) + junk, |files|).actions), Range(n));
  }

  lemma LowIdUsed(files: seq<File>, n: nat, mask: set<nat>, id: nat)
    requires LowUnneededCovered(files, n) && id in LowIds(files, n)
    ensures Used(files, Assign(files, n, mask, |files|).actions, id)
  {
    LowIsNeeded(files, n);
    MaskGrows(files, n, mask, |files|);
    var i :| 0 <= i < |files| && files[i].needed && files[i].oldId == id < n;
    assert Assign(files, n, mask, |files|).actions[i].id == id;
  }

  lemma CreatedIdUsed(files: seq<File>, n: nat, mask: set<nat>, id: nat)
    requires id in CreatedIds(Assign(files, n, mask, |files|).actions)
    ensures Used(files, Assign(files, n, mask, |files|).actions, id)
  {
    MaskGrows(files, n, mask, |files|);
    var actions := Assign(files, n, mask, |files|).actions;
    var i :| 0 <= i < |files| && actions[i].Create? && actions[i].id == id;
    assert files[i].needed;
  }

  lemma NumberableGivesExact(files: seq<File>, n: nat, junk: set<nat>)
    requires n == CountNeeded(files) && Numberable(files, n)
    requires forall x :: x in junk ==> x >= n
    ensures Exact(files, Assign(files, n, LowIds(files, n) + junk, |files|).actions, n)
  {
    var low := LowIds(files, n);
    var p := Assign(files, n, low + junk, |files|);
    UsedIdsFillRange(files, n, junk);
    AlwaysMidway(files, n, junk, |files|);
    MaskGrows(files, n, low + junk, |files|);
    NeededHaveIds(files, p.actions, n, low);
    forall id: nat | id < n
      ensures Used(files, p.actions, id)
    {
      assert id in Range(n);
      if id in low {
        LowIdUsed(files, n, low + junk, id);
      } else {
        CreatedIdUsed(files, n, low + junk, id);
      }
    }
  }

  /** Kept ids are low ones and the others are created. */
  ghost predicate KeepsOrCreates(files: seq<File>, actions: seq<Action>, n: nat)
    requires |actions| == |files|
  {
    && (forall i :: 0 <= i < |files| && files[i].oldId < n ==> actions[i] == Keep(files[i].oldId))
    && (forall i :: 0 <= i < |files| ==> (actions[i].Create? <==> files[i].oldId >= n && files[i].needed))
  }

  lemma NeededHaveIds(files: seq<File>, actions: seq<Action>, n: nat, low: set<nat>)
    requires |actions| == |files| && KeepsOrCreates(files, actions, n) && LowDistinct(files, n) && CreatedDistinct(actions)
    requires low == LowIds(files, n) && low !! CreatedIds(actions) && low + CreatedIds(actions) == Range(n)
    ensures forall i :: 0 <= i < |files| && files[i].needed ==> actions[i].id < n
    ensures forall i, j :: 0 <= i < j < |files| && files[i].needed && files[j].needed ==> actions[i].id != actions[j].id
  {
    forall i | 0 <= i < |files| && files[i].needed
      ensures actions[i].id in Range(n)
      ensures if files[i].oldId < n then actions[i].id in low else actions[i].Create? && actions[i].id in CreatedIds(actions)
    {
      if files[i].oldId < n {
        assert files[i].oldId in low;
      } else {
        assert actions[i].Create?;
      }
    }
  }

  /**
    The needed files end with exactly the ids 0 to n-1, once each, if and only if
    needed files with low ids have different ones and every low id of an unneeded
    file is shared with a needed one, whatever lies in the bitmap beyond id n.
   */
  lemma ExactIffNumberable(files: seq<File>, n: nat, junk: set<nat>)
    requires n == CountNeeded(files)
    requires forall x :: x in junk ==> x >= n
    ensures Exact(files, Assign(files, n, LowIds(files, n) + junk, |files|).actions, n) <==> Numberable(files, n)
  {
    if Numberable(files, n) {
      NumberableGivesExact(files, n, junk);
    }
    if Exact(files, Assign(files, n, LowIds(files, n) + junk, |files|).actions, n) {
      ExactNeedsNumberable(files, n, junk);
    }
  }

  /** A link to a removed file under id 0 pushes the only needed file to id 1. */
  lemma StaleLinkKeepsIdZero()
    ensures var files := [Item("a", 0, false, NO_DIGEST), Item("b", NO_ID, true, 1)];
            !Numberable(files, 1) && Assign(files, 1, LowIds(files, 1), 2).actions == [Keep(0), Create(1)]
  {
    var files := [Item("a", 0, false, NO_DIGEST), Item("b", NO_ID, true, 1)];
    assert files[0] == Item("a", 0, false, NO_DIGEST) && files[1] == Item("b", NO_ID, true, 1);
    assert LowIds(files, 1) == {0};
    assert !LowNeeded(files, 1, files[0].oldId);
    assert Assign(files, 1, {0}, 1) == Pass([Keep(0)], {0}, 0);
    assert FirstFree({0}, 0) == 1;
  }

  // ---------------------------------------------------------------- the pass over a bitmap

  function BitMask(k: nat): bv8
    requires k < 8
  {
    (1 as bv8) << k
  }

  predicate BitIsSet(bytes: seq<bv8>, bit: nat)
    requires bit / 8 < |bytes|
  {
    bytes[bit / 8] & BitMask(bit % 8) != 0
  }

  lemma BitsAreIndependent(x: bv8, i: nat, j: nat)
    requires i < 8 && j < 8
    ensures (x | BitMask(i)) & BitMask(j) != 0 <==> i == j || x & BitMask(j) != 0
  {
    assert BitMask(i) & BitMask(i) != 0;
    assert i != j ==> BitMask(i) & BitMask(j) == 0;
    assert (x | BitMask(i)) & BitMask(j) == (x & BitMask(j)) | (BitMask(i) & BitMask(j));
  }

  method SetBit(bytes: array<bv8>, bit: nat)
    requires bit / 8 < bytes.Length
    modifies bytes
    ensures forall b: nat :: b / 8 < bytes.Length ==> (BitIsSet(bytes[..], b) <==> b == bit || BitIsSet(old(bytes[..]), b))
  {
    bytes[bit / 8] := bytes[bit / 8] | BitMask(bit % 8);
    forall b: nat | b / 8 < bytes.Length
      ensures BitIsSet(bytes[..], b) <==> b == bit || BitIsSet(old(bytes[..]), b)
    {
      if b / 8 == bit / 8 {
        BitsAreIndependent(old(bytes[bit / 8]), bit % 8, b % 8);
      }
    }
  }

  /** The bitmap holds exactly the given ids. */
  ghost predicate Represents(bytes: seq<bv8>, mask: set<nat>) {
    8 * |bytes| == MAX_COLLISIONS && forall b: nat :: b < MAX_COLLISIONS ==> (BitIsSet(bytes, b) <==> b in mask)
  }

  /** Clears the bytes that hold the first `n` bits; what lies beyond is whatever was there. */
  method ClearBits(bytes: array<bv8>, n: nat)
    requires bytes.Length == 32 && n <= MAX_COLLISIONS
    modifies bytes
    ensures forall k :: 0 <= k < bytes.Length ==> bytes[k] == if k < (n + 7) / 8 then 0 else old(bytes[k])
  {
    var count := (n + 7) / 8;
    for k := 0 to count
      invariant forall m :: 0 <= m < bytes.Length ==> bytes[m] == if m < k then 0 else old(bytes[m])
    {
      bytes[k] := 0;
    }
  }

  lemma RepresentsAdded(before: seq<bv8>, after: seq<bv8>, mask: set<nat>, id: nat)
    requires Represents(before, mask) && |after| == |before|
    requires forall b: nat :: b / 8 < |before| ==> (BitIsSet(after, b) <==> b == id || BitIsSet(before, b))
    ensures Represents(after, mask + {id})
  {
  }

  method MarkId(idmask: array<bv8>, id: nat, ghost mask: set<nat>)
    requires id < MAX_COLLISIONS && Represents(idmask[..], mask)
    modifies idmask
    ensures Represents(idmask[..], mask + {id})
  {
    ghost var before := idmask[..];
    SetBit(idmask, id);
    RepresentsAdded(before, idmask[..], mask, id);
  }

  /** Clears the bits that matter and marks the low ids; `junk` is what the rest of the bitmap held before. */
  method MarkLowIds(files: seq<File>, n: nat, idmask: array<bv8>) returns (ghost junk: set<nat>)
    requires idmask.Length == 32 && n <= MAX_COLLISIONS
    modifies idmask
    ensures Represents(idmask[..], LowIds(files, n) + junk) && forall x :: x in junk ==> n <= x < MAX_COLLISIONS
  {
    ClearBits(idmask, n);
    junk := set b: nat | b < MAX_COLLISIONS && BitIsSet(idmask[..], b);
    ghost var low: set<nat> := {};
    for i := 0 to |files|
      invariant low == set k | 0 <= k < i && files[k].oldId < n :: files[k].oldId
      invariant Represents(idmask[..], low + junk)
    {
      if files[i].oldId < n {
        MarkId(idmask, files[i].oldId, low + junk);
        assert low + junk + {files[i].oldId} == low + {files[i].oldId} + junk;
        low := low + {files[i].oldId};
      }
    }
  }

  /** Looks for a clear bit from `from` on, as far as the bitmap goes. */
  method FindFree(idmask: array<bv8>, from: nat, ghost mask: set<nat>) returns (id: nat)
    requires Represents(idmask[..], mask) && from <= MAX_COLLISIONS
    ensures id == if FirstFree(mask, from) < MAX_COLLISIONS then FirstFree(mask, from) else MAX_COLLISIONS
  {
    id := from;
    while id < MAX_COLLISIONS && BitIsSet(idmask[..], id)
      invariant from <= id <= MAX_COLLISIONS && id <= FirstFree(mask, from)
    {
      id := id + 1;
    }
  }

  /** The search for an id for the k-th file, if it needs one, ends inside the bitmap. */
  ghost predicate SearchFits(files: seq<File>, n: nat, mask: set<nat>, k: nat)
    requires k < |files|
  {
    var p := Assign(files, n, mask, k);
    files[k].oldId >= n && files[k].needed ==> FirstFree(p.mask, p.next) < MAX_COLLISIONS
  }

  /** The bitmap is large enough for the needed files, and every search ends inside it. */
  ghost predicate PassFits(files: seq<File>, n: nat, mask: set<nat>) {
    n <= MAX_COLLISIONS && forall k :: 0 <= k < |files| ==> SearchFits(files, n, mask, k)
  }

  /** The ids marked and those still to be found are no more than the bitmap holds. */
  ghost predicate RoomFor(files: seq<File>, n: nat, junk: set<nat>) {
    |LowIds(files, n) + junk| + CountHigh(files, n, |files|) <= MAX_COLLISIONS
  }

  /** Every file that needs a new id adds one to the mask, and nothing below the cursor is free. */
  ghost predicate Counted(p: Pass, mask: set<nat>, count: nat) {
    |p.mask| == |mask| + count && forall x: nat :: x < p.next ==> x in p.mask
  }

  lemma {:induction false} PassCounted(files: seq<File>, n: nat, mask: set<nat>, k: nat)
    requires k <= |files|
    ensures Counted(Assign(files, n, mask, k), mask, CountHigh(files, n, k))
  {
    if k > 0 {
      PassCounted(files, n, mask, k - 1);
    }
  }

  ghost predicate Inside(ids: set<nat>, size: nat) {
    forall x :: x in ids ==> x < size
  }

  lemma InsideSize(ids: set<nat>, size: nat)
    requires Inside(ids, size)
    ensures |ids| <= size
  {
    SubsetSize(ids, Range(size));
  }

  /** Within the limit, the k-th search ends inside the bitmap. */
  lemma CountedFits(p: Pass, mask: set<nat>, count: nat, size: nat)
    requires Counted(p, mask, count) && Inside(p.mask, size) && |mask| + count < size
    ensures FirstFree(p.mask, p.next) < size
  {
    var free := PigeonHole(p.mask, size);
  }

  /** Searches that end inside keep the mask inside. */
  lemma {:induction false} MaskInside(files: seq<File>, n: nat, mask: set<nat>, k: nat)
    requires k <= |files| && Inside(mask, MAX_COLLISIONS) && forall i :: 0 <= i < k ==> SearchFits(files, n, mask, i)
    ensures Inside(Assign(files, n, mask, k).mask, MAX_COLLISIONS)
  {
    if k > 0 {
      MaskInside(files, n, mask, k - 1);
      assert SearchFits(files, n, mask, k - 1);
    }
  }

  lemma {:induction false} RoomSuffices(files: seq<File>, n: nat, mask: set<nat>, k: nat)
    requires k <= |files| && Inside(mask, MAX_COLLISIONS) && |mask| + CountHigh(files, n, k) <= MAX_COLLISIONS
    ensures forall i :: 0 <= i < k ==> SearchFits(files, n, mask, i)
  {
    if k > 0 {
      RoomSuffices(files, n, mask, k - 1);
      NextFits(files, n, mask, k - 1);
    }
  }

  lemma NextFits(files: seq<File>, n: nat, mask: set<nat>, k: nat)
    requires k < |files| && Inside(mask, MAX_COLLISIONS) && |mask| + CountHigh(files, n, k + 1) <= MAX_COLLISIONS
    requires forall i :: 0 <= i < k ==> SearchFits(files, n, mask, i)
    ensures SearchFits(files, n, mask, k)
  {
    if files[k].needed && files[k].oldId >= n {
      MaskInside(files, n, mask, k);
      PassCounted(files, n, mask, k);
      CountedFits(Assign(files, n, mask, k), mask, CountHigh(files, n, k), MAX_COLLISIONS);
    }
  }

  /** The pass stays inside the bitmap if and only if the ids marked and the files that need a new one fit into it together. */
  lemma FitsByCount(files: seq<File>, n: nat, junk: set<nat>)
    requires n <= MAX_COLLISIONS && forall x :: x in junk ==> x < MAX_COLLISIONS
    ensures PassFits(files, n, LowIds(files, n) + junk) <==> RoomFor(files, n, junk)
  {
    var mask := LowIds(files, n) + junk;
    if RoomFor(files, n, junk) {
      RoomSuffices(files, n, mask, |files|);
    } else if PassFits(files, n, mask) {
      MaskInside(files, n, mask, |files|);
      PassCounted(files, n, mask, |files|);
      InsideSize(Assign(files, n, mask, |files|).mask, MAX_COLLISIONS);
    }
  }

  /** A bucket that leaves the bitmap has no room, and cannot be numbered either. */
  lemma Overflows(files: seq<File>, n: nat, junk: set<nat>, k: nat)
    requires n == CountNeeded(files) <= MAX_COLLISIONS && forall x :: x in junk ==> n <= x < MAX_COLLISIONS
    requires k < |files| && !SearchFits(files, n, LowIds(files, n) + junk, k)
    ensures !RoomFor(files, n, junk) && !Numberable(files, n)
  {
    FitsByCount(files, n, junk);
    NumberableFits(files, n, junk);
  }

  lemma {:induction false} CrowdIsHigh(files: seq<File>, k: nat)
    requires k <= MAX_COLLISIONS == |files| - 1 && Crowded(files, MAX_COLLISIONS)
    ensures CountHigh(files, MAX_COLLISIONS, k + 1) == k
  {
    if k > 0 {
      CrowdIsHigh(files, k - 1);
    }
  }

  /** A link to a removed file under id 0 and 256 needed files without links: the search for the last of them leaves the bitmap. */
  lemma CrowdLeavesBitmap(junk: set<nat>)
    requires forall x :: x in junk ==> x < MAX_COLLISIONS
    ensures var files := Collect(Crowd(MAX_COLLISIONS));
            CountNeeded(files) == MAX_COLLISIONS && !PassFits(files, MAX_COLLISIONS, LowIds(files, MAX_COLLISIONS) + junk)
  {
    var files := Collect(Crowd(MAX_COLLISIONS));
    CrowdCollected(MAX_COLLISIONS);
    CrowdIsHigh(files, MAX_COLLISIONS);
    assert files[0].oldId in LowIds(files, MAX_COLLISIONS) + junk;
    FitsByCount(files, MAX_COLLISIONS, junk);
  }

  /**
    The pass on one bucket, whatever it holds: mark the low ids in use, then
    number the files in order. `ok` says that no access left the bitmap; what
    happens otherwise is not defined. `junk` is what the bitmap held beyond the
    bits that are cleared.
   */
  method AssignIds(files: seq<File>, idmask: array<bv8>) returns (ok: bool, actions: seq<Action>, ghost junk: set<nat>)
    requires idmask.Length == 32
    modifies idmask
    ensures forall x :: x in junk ==> CountNeeded(files) <= x < MAX_COLLISIONS
    ensures ok <==> CountNeeded(files) <= MAX_COLLISIONS && RoomFor(files, CountNeeded(files), junk)
    ensures ok ==> actions == Assign(files, CountNeeded(files), LowIds(files, CountNeeded(files)) + junk, |files|).actions
    ensures ok ==> (Exact(files, actions, CountNeeded(files)) <==> Numberable(files, CountNeeded(files)))
    ensures CountNeeded(files) <= MAX_COLLISIONS && Numberable(files, CountNeeded(files)) ==> ok
    ensures ok ==> Tidied(files, actions, CountNeeded(files))
  {
    var n := CountNeeded(files);
    ok, actions, junk := false, [], {};
    if n > MAX_COLLISIONS {
      return;
    }
    junk := MarkLowIds(files, n, idmask);
    ghost var mask := LowIds(files, n) + junk;
    var next := 0;
    for i := 0 to |files|
      invariant Represents(idmask[..], Assign(files, n, mask, i).mask) && next <= MAX_COLLISIONS
      invariant actions == Assign(files, n, mask, i).actions && next == Assign(files, n, mask, i).next
      invariant forall k :: 0 <= k < i ==> SearchFits(files, n, mask, k)
    {
      var f := files[i];
      if f.oldId < n {
        actions := actions + [Keep(f.oldId)];
      } else if f.needed {
        next := FindFree(idmask, next, Assign(files, n, mask, i).mask);
        if next == MAX_COLLISIONS {
          Overflows(files, n, junk, i);
          return;
        }
        actions := actions + [Create(next)];
        MarkId(idmask, next, Assign(files, n, mask, i).mask);
      } else {
        actions := actions + [Remove(f.oldId)];
      }
    }
    ok := true;
    FitsByCount(files, n, junk);
    ExactIffNumberable(files, n, junk);
    MaskGrows(files, n, mask, |files|);
    LeftoversRemoved(files, n, mask, |files|);
  }

  /** Low ids are kept and leftovers removed. */
  ghost predicate Tidied(files: seq<File>, actions: seq<Action>, n: nat) {
    && |actions| == |files|
    && (forall i :: 0 <= i < |files| && files[i].oldId < n ==> actions[i] == Keep(files[i].oldId))
    && (forall i :: 0 <= i < |files| && files[i].oldId >= n && !files[i].needed ==> actions[i] == Remove(files[i].oldId))
  }

  lemma NumberableFits(files: seq<File>, n: nat, junk: set<nat>)
    requires n == CountNeeded(files) <= MAX_COLLISIONS && forall x :: x in junk ==> x >= n
    ensures Numberable(files, n) ==> PassFits(files, n, LowIds(files, n) + junk)
  {
    if Numberable(files, n) {
      forall k | 0 <= k < |files|
        ensures SearchFits(files, n, LowIds(files, n) + junk, k)
      {
        if files[k].oldId >= n && files[k].needed {
          SearchStopsBelow(files, n, junk, k);
        }
      }
    }
  }

  /** The bitmap search for the k-th file ends below the number of needed files. */
  lemma SearchStopsBelow(files: seq<File>, n: nat, junk: set<nat>, k: nat)
    requires k < |files| && n == CountNeeded(files) && Numberable(files, n)
    requires forall x :: x in junk ==> x >= n
    requires files[k].needed && files[k].oldId >= n
    ensures var p := Assign(files, n, LowIds(files, n) + junk, k);
            FirstFree(p.mask, p.next) < n
  {
    AlwaysMidway(files, n, junk, k);
    LowFits(files, n);
    HighCountRises(files, n, k + 1, |files|);
    NewIdIsLow(Assign(files, n, LowIds(files, n) + junk, k), LowIds(files, n), junk, n, CountHigh(files, n, k));
  }

  lemma {:induction false} LeftoversRemoved(files: seq<File>, n: nat, mask: set<nat>, k: nat)
    requires k <= |files|
    ensures forall i :: 0 <= i < k && files[i].oldId >= n && !files[i].needed ==> Assign(files, n, mask, k).actions[i] == Remove(files[i].oldId)
  {
    if k > 0 {
      LeftoversRemoved(files, n, mask, k - 1);
    }
  }
}
