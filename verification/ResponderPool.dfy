/**
  The process pool of the OCSP responder: a parent that keeps up to `multi`
  children running and terminates them all on a signal. A run is observed for
  any number of kernel calls, with any answers the kernel may give.
 */
module ResponderPool {

  // ---------------------------------------------------------------- the kernel

  /** What the kernel is about to answer: a process id, how a failed wait failed, and a signal to deliver. */
  datatype Answer = Answer(pid: int, interrupted: bool, signal: int)

  /** A look at the signal noted, a fork with its three outcomes, a wait with its two, and a termination signal sent. */
  datatype Call =
    | Polled(sig: int)
    | Forked(pid: int) | ForkFailed | Cloned
    | Reaped(pid: int) | WaitFailed(interrupted: bool)
    | Killed(pid: int)
  {
    predicate IsFork() { Forked? || ForkFailed? || Cloned? }
    predicate IsWait() { Reaped? || WaitFailed? }
    predicate NotesSignal() { Polled? && sig != 0 }
    predicate IsWork() { !Killed? && !Cloned? && this != WaitFailed(false) }
  }

  /** Children that were forked and have not been waited for. */
  function Extant(log: seq<Call>): set<int> {
    if log == [] then {}
    else
      var before := Extant(log[..|log| - 1]);
      match log[|log| - 1]
      case Forked(pid) => before + {pid}
      case Reaped(pid) => before - {pid}
      case _ => before
  }

  lemma ExtantMore(log: seq<Call>, c: Call)
    ensures Extant(log + [c]) ==
            if c.Forked? then Extant(log) + {c.pid} else if c.Reaped? then Extant(log) - {c.pid} else Extant(log)
  {
    assert (log + [c])[..|log|] == log;
  }

  class Kernel {
    const answers: nat -> Answer
    var clock: nat
    var children: set<int>
    var termsig: int
    /** Every call made, in order. */
    ghost var log: seq<Call>

    ghost predicate Valid()
      reads this
    {
      clock == |log| && children == Extant(log) && forall pid :: pid in children ==> pid > 0
    }

    constructor (answers: nat -> Answer)
      ensures Valid() && this.answers == answers && clock == 0 && log == [] && termsig == 0
    {
      this.answers, clock, children, termsig, log := answers, 0, {}, 0, [];
    }

    /** The signal noted so far; the handler may have run just before. */
    method Poll() returns (sig: int)
      requires Valid()
      modifies this`clock, this`termsig, this`log
      ensures Valid() && log == old(log) + [Polled(sig)] && sig == termsig && (old(termsig) != 0 ==> sig != 0)
    {
      if answers(clock).signal != 0 {
        termsig := answers(clock).signal;
      }
      sig, clock := termsig, clock + 1;
      ExtantMore(log, Polled(sig));
      log := log + [Polled(sig)];
    }

    /** Waits for any child: gives a child of this process that has ended, or fails. */
    method WaitPid() returns (pid: int, interrupted: bool)
      requires Valid()
      modifies this`clock, this`children, this`log
      ensures Valid()
      ensures if pid > 0 then pid in old(children) && log == old(log) + [Reaped(pid)] && children == old(children) - {pid}
              else log == old(log) + [WaitFailed(interrupted)] && children == old(children)
    {
      var answer := answers(clock);
      clock := clock + 1;
      if answer.pid in children {
        pid, interrupted := answer.pid, false;
        ExtantMore(log, Reaped(pid));
        children, log := children - {pid}, log + [Reaped(pid)];
      } else {
        pid, interrupted := -1, answer.interrupted;
        ExtantMore(log, WaitFailed(interrupted));
        log := log + [WaitFailed(interrupted)];
      }
    }

    /** Forks: -1 on failure, 0 in the child, and in the parent an id that no child of it has. */
    method Fork() returns (pid: int)
      requires Valid()
      modifies this`clock, this`children, this`log
      ensures Valid()
      ensures if pid > 0 then pid !in old(children) && log == old(log) + [Forked(pid)] && children == old(children) + {pid}
              else log == old(log) + [if pid == 0 then Cloned else ForkFailed] && children == old(children)
    {
      pid := answers(clock).pid;
      clock := clock + 1;
      if pid > 0 && pid !in children {
        ExtantMore(log, Forked(pid));
        children, log := children + {pid}, log + [Forked(pid)];
      } else {
        if pid != 0 {
          pid := -1;
        }
        ExtantMore(log, if pid == 0 then Cloned else ForkFailed);
        log := log + [if pid == 0 then Cloned else ForkFailed];
      }
    }

    method Kill(pid: int)
      requires Valid()
      modifies this`clock, this`log
      ensures Valid() && log == old(log) + [Killed(pid)]
    {
      clock := clock + 1;
      ExtantMore(log, Killed(pid));
      log := log + [Killed(pid)];
    }
  }

  // ---------------------------------------------------------------- how a parent behaves

  /** No look since `from` has shown a signal. */
  ghost predicate NoSignal(log: seq<Call>, from: nat) {
    |log| <= from || (NoSignal(log[..|log| - 1], from) && !log[|log| - 1].NotesSignal())
  }

  /** How many looks the log ends in. */
  ghost function Looks(log: seq<Call>, from: nat): nat {
    if |log| <= from || !log[|log| - 1].Polled? then 0 else 1 + Looks(log[..|log| - 1], from)
  }

  /**
    Whether a call is due behind `before`: a fork only with room in the pool and a
    wait only when it is full, neither once a signal is noted, and a look for a
    signal only if the last three calls were not just that.
   */
  ghost predicate Due(before: seq<Call>, from: nat, multi: nat, c: Call) {
    && (c.IsFork() ==> |Extant(before)| < multi && NoSignal(before, from))
    && (c.IsWait() ==> |Extant(before)| == multi && NoSignal(before, from))
    && (c.Forked? ==> c.pid !in Extant(before))
    && (c.Polled? ==> Looks(before, from) < 3)
  }

  /** Every call since `from` was due. */
  ghost predicate Orderly(log: seq<Call>, from: nat, multi: nat) {
    |log| <= from || (Orderly(log[..|log| - 1], from, multi) && Due(log[..|log| - 1], from, multi, log[|log| - 1]))
  }

  /** A parent that is still at work: it has not terminated its children, is not the child, and could always wait. */
  ghost predicate AtWork(log: seq<Call>, from: nat) {
    |log| <= from || (AtWork(log[..|log| - 1], from) && log[|log| - 1].IsWork())
  }

  lemma OneMore(log: seq<Call>, from: nat, multi: nat, c: Call)
    requires from <= |log|
    ensures Orderly(log + [c], from, multi) <==> Orderly(log, from, multi) && Due(log, from, multi, c)
    ensures AtWork(log + [c], from) <==> AtWork(log, from) && c.IsWork()
    ensures NoSignal(log + [c], from) <==> NoSignal(log, from) && !c.NotesSignal()
    ensures Looks(log + [c], from) == if c.Polled? then Looks(log, from) + 1 else 0
  {
    assert (log + [c])[..|log|] == log;
  }

  /** Each call was due behind those before it. */
  lemma {:induction false} CallWasDue(log: seq<Call>, from: nat, multi: nat, k: nat)
    requires Orderly(log, from, multi) && from <= k < |log|
    ensures Due(log[..k], from, multi, log[k])
  {
    var n := |log| - 1;
    if k < n {
      CallWasDue(log[..n], from, multi, k);
      assert log[..n][..k] == log[..k];
    }
  }

  lemma {:induction false} WorkAt(log: seq<Call>, from: nat, k: nat)
    requires AtWork(log, from) && from <= k < |log|
    ensures log[k].IsWork()
  {
    if k < |log| - 1 {
      WorkAt(log[..|log| - 1], from, k);
    }
  }

  lemma {:induction false} LooksAre(log: seq<Call>, from: nat, k: nat)
    requires from <= k < |log| && forall i :: k <= i < |log| ==> log[i].Polled?
    ensures Looks(log, from) >= |log| - k
  {
    if k < |log| - 1 {
      LooksAre(log[..|log| - 1], from, k);
    }
  }

  /** Of any four calls in a row one does more than look for a signal. */
  lemma NotOnlyLooks(log: seq<Call>, from: nat, multi: nat, k: nat)
    requires Orderly(log, from, multi) && from <= k && k + 4 <= |log|
    ensures exists i :: k <= i < k + 4 && !log[i].Polled?
  {
    if forall i :: k <= i < k + 4 ==> log[i].Polled? {
      CallWasDue(log, from, multi, k + 3);
      LooksAre(log[..k + 3], from, k);
    }
  }

  /** A log that goes on from another one. */
  ghost predicate Since(log: seq<Call>, base: seq<Call>) {
    log == base || (log != [] && Since(log[..|log| - 1], base))
  }

  lemma {:induction false} SinceIsLonger(log: seq<Call>, base: seq<Call>)
    requires Since(log, base)
    ensures base <= log
  {
    if log != base {
      SinceIsLonger(log[..|log| - 1], base);
      assert log == log[..|log| - 1] + [log[|log| - 1]];
    }
  }

  lemma SinceMore(log: seq<Call>, base: seq<Call>, c: Call)
    requires Since(log, base)
    ensures Since(log + [c], base) && |log + [c]| > |base|
  {
    assert (log + [c])[..|log|] == log;
    SinceIsLonger(log, base);
  }

  /** What a parent at work has done since `base`, ending in at most `looks` looks. */
  ghost predicate Working(log: seq<Call>, base: seq<Call>, multi: nat, looks: nat) {
    Since(log, base) && Orderly(log, |base|, multi) && AtWork(log, |base|) && Looks(log, |base|) <= looks
  }

  lemma WorkOn(log: seq<Call>, base: seq<Call>, multi: nat, looks: nat, c: Call)
    requires Working(log, base, multi, looks) && c.IsWork() && (c.Polled? ==> looks < 3)
    requires c.Polled? || Due(log, |base|, multi, c)
    ensures Working(log + [c], base, multi, if c.Polled? then looks + 1 else 0)
    ensures NoSignal(log + [c], |base|) <==> NoSignal(log, |base|) && !c.NotesSignal()
  {
    SinceMore(log, base, c);
    OneMore(log, |base|, multi, c);
  }

  // ---------------------------------------------------------------- the pool fills up

  /** Forks and waits asked for since `from`. */
  ghost function Asked(log: seq<Call>, from: nat): nat {
    if |log| <= from then 0
    else Asked(log[..|log| - 1], from) + if log[|log| - 1].IsFork() || log[|log| - 1].IsWait() then 1 else 0
  }

  lemma {:induction false} AskedBefore(log: seq<Call>, from: nat, k: nat)
    requires from <= k <= |log|
    ensures Asked(log[..k], from) <= Asked(log, from)
    ensures k < |log| && (log[k].IsFork() || log[k].IsWait()) ==> Asked(log[..k], from) < Asked(log, from)
  {
    if k < |log| {
      AskedBefore(log[..|log| - 1], from, k);
      assert log[..|log| - 1][..k] == log[..k];
    } else {
      assert log[..k] == log;
    }
  }

  lemma {:induction false} Prefixes(log: seq<Call>, from: nat, multi: nat, k: nat)
    requires from <= k <= |log| && Orderly(log, from, multi) && AtWork(log, from)
    ensures Orderly(log[..k], from, multi) && AtWork(log[..k], from)
  {
    if k < |log| {
      Prefixes(log[..|log| - 1], from, multi, k);
      assert log[..|log| - 1][..k] == log[..k];
    } else {
      assert log[..k] == log;
    }
  }

  /** A parent at work makes at most four calls for each fork and wait, and three more. */
  lemma {:induction false} CallsBounded(log: seq<Call>, from: nat, multi: nat)
    requires from <= |log| && Orderly(log, from, multi) && AtWork(log, from)
    ensures |log| - from <= 4 * Asked(log, from) + 3
    decreases |log|
  {
    if |log| - from > 3 {
      var k := |log| - 4;
      var before := log[..k];
      Prefixes(log, from, multi, k);
      CallsBounded(before, from, multi);
      NotOnlyLooks(log, from, multi, k);
      var i :| k <= i < |log| && !log[i].Polled?;
      WorkAt(log, from, i);
      AskedBefore(log, from, i);
      AskedBefore(log[..i], from, k);
      assert log[..i][..k] == before;
    }
  }

  /** Between `a` and `b` every fork has succeeded. */
  ghost predicate ForksSucceed(log: seq<Call>, a: nat, b: nat) {
    forall k :: a <= k < b && k < |log| ==> !log[k].ForkFailed? && !log[k].Cloned?
  }

  /** At some point from `a` to `b` the pool is full. */
  ghost predicate FullWithin(log: seq<Call>, multi: nat, a: nat, b: nat) {
    exists k :: a <= k <= b && k <= |log| && |Extant(log[..k])| == multi
  }

  lemma {:induction false} LooksKeepExtant(log: seq<Call>, a: nat, b: nat)
    requires a <= b <= |log| && forall k :: a <= k < b ==> log[k].Polled?
    ensures Extant(log[..b]) == Extant(log[..a])
  {
    if a < b {
      LooksKeepExtant(log, a, b - 1);
      assert log[..b] == log[..b - 1] + [log[b - 1]];
      ExtantMore(log[..b - 1], log[b - 1]);
    }
  }

  /** The first call from `a` on that is not a look. */
  lemma {:induction false} FirstOther(log: seq<Call>, a: nat, b: nat) returns (j: nat)
    requires a < b <= |log| && exists k :: a <= k < b && !log[k].Polled?
    ensures a <= j < b && !log[j].Polled? && forall k :: a <= k < j ==> log[k].Polled?
    decreases b - a
  {
    j := a;
    if log[a].Polled? {
      j := FirstOther(log, a + 1, b);
    }
  }

  /** With room, and as long as forks succeed, one of the next four calls adds a child. */
  lemma NextChild(log: seq<Call>, from: nat, multi: nat, a: nat) returns (j: nat)
    requires from <= a && a + 4 <= |log| && Orderly(log, from, multi) && AtWork(log, from)
    requires |Extant(log[..a])| < multi && ForksSucceed(log, a, a + 4)
    ensures a <= j < a + 4 && |Extant(log[..j + 1])| == |Extant(log[..a])| + 1
  {
    NotOnlyLooks(log, from, multi, a);
    j := FirstOther(log, a, a + 4);
    LooksKeepExtant(log, a, j);
    CallWasDue(log, from, multi, j);
    WorkAt(log, from, j);
    OneChildMore(log, a, j);
  }

  lemma OneChildMore(log: seq<Call>, a: nat, j: nat)
    requires a <= j < |log| && log[j].Forked? && log[j].pid !in Extant(log[..j]) && Extant(log[..j]) == Extant(log[..a])
    ensures |Extant(log[..j + 1])| == |Extant(log[..a])| + 1
  {
    assert log[..j + 1] == log[..j] + [log[j]];
    ExtantMore(log[..j], log[j]);
  }

  /**
    From any point on, as long as forks succeed, the pool is full again after at
    most four calls for each child that is missing.
   */
  lemma {:induction false} PoolFills(log: seq<Call>, from: nat, multi: nat, a: nat, room: nat)
    requires from <= a && Orderly(log, from, multi) && AtWork(log, from)
    requires a + 4 * room <= |log| && |Extant(log[..a])| + room == multi && ForksSucceed(log, a, a + 4 * room)
    ensures FullWithin(log, multi, a, a + 4 * room)
    decreases room
  {
    if room > 0 {
      var j := NextChild(log, from, multi, a);
      assert ForksSucceed(log, j + 1, j + 1 + 4 * (room - 1));
      PoolFills(log, from, multi, j + 1, room - 1);
      var k :| j + 1 <= k <= j + 1 + 4 * (room - 1) && k <= |log| && |Extant(log[..k])| == multi;
    }
  }

  // ---------------------------------------------------------------- the slot table

  ghost function Occupied(slots: seq<int>): set<int> {
    set i | 0 <= i < |slots| && slots[i] != 0
  }

  /** The non-zero slots hold exactly the given processes, each once: slot after slot takes one away, and none is left. */
  ghost predicate HoldsExactly(slots: seq<int>, pids: set<int>) {
    var n := |slots| - 1;
    if slots == [] then pids == {}
    else if slots[n] == 0 then HoldsExactly(slots[..n], pids)
    else slots[n] in pids && HoldsExactly(slots[..n], pids - {slots[n]})
  }

  /** In other words: a process has one slot, and no other number is in a slot. */
  ghost predicate EachHasSlot(slots: seq<int>, pids: set<int>) {
    && 0 !in pids
    && (forall i :: 0 <= i < |slots| && slots[i] != 0 ==> slots[i] in pids)
    && (forall pid :: pid in pids ==> pid in slots)
    && forall i, j :: 0 <= i < j < |slots| && slots[i] != 0 ==> slots[i] != slots[j]
  }

  lemma EachFront(slots: seq<int>, last: int, pids: set<int>)
    ensures EachHasSlot(slots + [last], pids) <==>
            if last == 0 then EachHasSlot(slots, pids) else last in pids && EachHasSlot(slots, pids - {last}) && 0 !in pids
  {
    var all := slots + [last];
    assert forall i :: 0 <= i < |slots| ==> all[i] == slots[i];
    assert all[|slots|] == last;
  }

  lemma {:induction false} SlotsHold(slots: seq<int>, pids: set<int>)
    ensures HoldsExactly(slots, pids) <==> EachHasSlot(slots, pids)
  {
    if slots != [] {
      var n := |slots| - 1;
      assert slots == slots[..n] + [slots[n]];
      EachFront(slots[..n], slots[n], pids);
      SlotsHold(slots[..n], if slots[n] == 0 then pids else pids - {slots[n]});
    } else if EachHasSlot(slots, pids) {
      assert forall pid :: pid in pids ==> pid in slots;
      assert pids == {};
    }
  }

  function Indices(n: nat): (r: set<int>)
    ensures |r| == n
    ensures forall i :: i in r <==> 0 <= i < n
  {
    if n == 0 then {} else Indices(n - 1) + {n - 1}
  }

  lemma SubsetCount(a: set<int>, b: set<int>)
    requires a <= b
    ensures |a| <= |b|
    ensures |a| == |b| ==> a == b
  {
    assert b == a + (b - a);
  }

  ghost predicate AllTaken(slots: seq<int>) {
    forall i :: 0 <= i < |slots| ==> slots[i] != 0
  }

  /** At most all slots are taken; all are taken exactly when there are that many. */
  lemma OccupiedCount(slots: seq<int>)
    ensures |Occupied(slots)| <= |slots|
    ensures |Occupied(slots)| == |slots| <==> AllTaken(slots)
  {
    var (all, taken) := (Indices(|slots|), Occupied(slots));
    SubsetCount(taken, all);
    if taken == all {
      forall i | 0 <= i < |slots|
        ensures slots[i] != 0
      {
        assert i in all;
      }
    }
    if AllTaken(slots) {
      assert taken == all;
    }
  }

  lemma FillSlot(slots: seq<int>, i: nat, pid: int, pids: set<int>)
    requires i < |slots| && slots[i] == 0 && pid != 0 && pid !in pids && HoldsExactly(slots, pids)
    ensures HoldsExactly(slots[i := pid], pids + {pid})
    ensures |Occupied(slots[i := pid])| == |Occupied(slots)| + 1
  {
    var after := slots[i := pid];
    SlotsHold(slots, pids);
    SlotsHold(after, pids + {pid});
    assert Occupied(after) == Occupied(slots) + {i};
    assert after[i] == pid;
    forall p | p in pids
      ensures p in after
    {
      var k :| 0 <= k < |slots| && slots[k] == p;
      assert after[k] == p;
    }
  }

  lemma ClearSlot(slots: seq<int>, i: nat, pids: set<int>)
    requires i < |slots| && slots[i] != 0 && HoldsExactly(slots, pids)
    ensures HoldsExactly(slots[i := 0], pids - {slots[i]})
    ensures |Occupied(slots[i := 0])| == |Occupied(slots)| - 1
  {
    var after := slots[i := 0];
    SlotsHold(slots, pids);
    SlotsHold(after, pids - {slots[i]});
    assert Occupied(slots) == Occupied(after) + {i};
    forall p | p in pids && p != slots[i]
      ensures p in after
    {
      var k :| 0 <= k < |slots| && slots[k] == p;
      assert after[k] == p;
    }
  }

  /** The slots hold one process each: there are as many as processes. */
  lemma {:induction false} OccupiedIsChildren(slots: seq<int>, pids: set<int>)
    requires HoldsExactly(slots, pids)
    ensures |Occupied(slots)| == |pids|
  {
    if slots != [] {
      var n := |slots| - 1;
      OccupiedIsChildren(slots[..n], if slots[n] == 0 then pids else pids - {slots[n]});
      assert Occupied(slots) == Occupied(slots[..n]) + if slots[n] == 0 then {} else {n};
    }
  }

  /** Termination signals for the non-zero slots, in order. */
  function Kills(slots: seq<int>): seq<Call> {
    if slots == [] then []
    else
      var n := |slots| - 1;
      Kills(slots[..n]) + if slots[n] != 0 then [Killed(slots[n])] else []
  }

  lemma {:induction false} KillsOfSlots(slots: seq<int>)
    ensures |Kills(slots)| == |Occupied(slots)|
    ensures forall k :: 0 <= k < |Kills(slots)| ==> Kills(slots)[k].Killed?
  {
    if slots != [] {
      var n := |slots| - 1;
      KillsOfSlots(slots[..n]);
      assert Occupied(slots) == Occupied(slots[..n]) + if slots[n] != 0 then {n} else {};
      assert forall pid :: pid in slots ==> pid in slots[..n] || pid == slots[n];
    }
  }

  lemma {:induction false} KillsKeepExtant(log: seq<Call>, kills: seq<Call>)
    requires forall k :: 0 <= k < |kills| ==> kills[k].Killed?
    ensures Extant(log + kills) == Extant(log)
  {
    if kills == [] {
      assert log + kills == log;
    } else {
      var n := |kills| - 1;
      KillsKeepExtant(log, kills[..n]);
      assert (log + kills)[..|log + kills| - 1] == log + kills[..n];
    }
  }

  /** Termination signals are always in order. */
  lemma {:induction false} KillsInOrder(log: seq<Call>, base: seq<Call>, multi: nat, kills: seq<Call>)
    requires Since(log, base) && Orderly(log, |base|, multi) && forall k :: 0 <= k < |kills| ==> kills[k].Killed?
    ensures Since(log + kills, base) && Orderly(log + kills, |base|, multi)
  {
    if kills == [] {
      assert log + kills == log;
    } else {
      var n := |kills| - 1;
      KillsInOrder(log, base, multi, kills[..n]);
      SinceIsLonger(log + kills[..n], base);
      SinceMore(log + kills[..n], base, kills[n]);
      OneMore(log + kills[..n], |base|, multi, kills[n]);
      assert log + kills == log + kills[..n] + [kills[n]];
    }
  }

  /** The processes that were sent a termination signal. */
  function Targets(calls: seq<Call>): set<int> {
    if calls == [] then {}
    else
      var (before, last) := (Targets(calls[..|calls| - 1]), calls[|calls| - 1]);
      if last.Killed? then before + {last.pid} else before
  }

  lemma KillsReach(slots: seq<int>, pids: set<int>)
    requires HoldsExactly(slots, pids)
    ensures Targets(Kills(slots)) == pids
  {
    TargetsOfKills(slots);
    SlotsHold(slots, pids);
    forall pid
      ensures pid in Targets(Kills(slots)) <==> pid in pids
    {
      if pid != 0 && pid in slots {
        var i :| 0 <= i < |slots| && slots[i] == pid;
      }
    }
  }

  lemma {:induction false} TargetsOfKills(slots: seq<int>)
    ensures forall pid :: pid in Targets(Kills(slots)) <==> pid != 0 && pid in slots
  {
    if slots != [] {
      var n := |slots| - 1;
      TargetsOfKills(slots[..n]);
      assert slots == slots[..n] + [slots[n]];
      if slots[n] != 0 {
        assert Kills(slots)[..|Kills(slots)| - 1] == Kills(slots[..n]);
      } else {
        assert Kills(slots) == Kills(slots[..n]);
      }
    }
  }

  /**
    The last calls, as many as there are children left, reach just these
    children: every child is signalled once and nothing else is.
   */
  ghost predicate AllSignalled(log: seq<Call>) {
    var n := |log| - |Extant(log)|;
    0 <= n && Targets(log[n..]) == Extant(log)
  }

  lemma {:induction false} TargetsCount(calls: seq<Call>)
    ensures |Targets(calls)| <= |calls|
    ensures |Targets(calls)| == |calls| ==> forall k :: 0 <= k < |calls| ==> calls[k].Killed? && calls[k].pid in Targets(calls)
    ensures |Targets(calls)| == |calls| ==> forall j, k :: 0 <= j < k < |calls| ==> calls[j] != calls[k]
  {
    if calls != [] {
      var before := calls[..|calls| - 1];
      TargetsCount(before);
      assert forall k :: 0 <= k < |before| ==> before[k] == calls[k];
    }
  }

  /** In plain words: behind the n-th call there are only termination signals, each to another child. */
  lemma SignalledOnce(log: seq<Call>)
    requires AllSignalled(log)
    ensures var n := |log| - |Extant(log)|;
            && (forall k :: n <= k < |log| ==> log[k].Killed? && log[k].pid in Extant(log))
            && (forall j, k :: n <= j < k < |log| ==> log[j] != log[k])
            && forall pid :: pid in Extant(log) ==> pid in Targets(log[n..])
  {
    var n := |log| - |Extant(log)|;
    TargetsCount(log[n..]);
    forall k | n <= k < |log|
      ensures log[k].Killed? && log[k].pid in Extant(log)
    {
      assert log[n..][k - n] == log[k];
    }
    forall j, k | n <= j < k < |log|
      ensures log[j] != log[k]
    {
      assert log[n..][j - n] == log[j] && log[n..][k - n] == log[k];
    }
  }

  /** What makes a parent terminate its children: a signal noted, or a broken wait. */
  ghost predicate Ends(c: Call, status: int) {
    if status == 0 then c.NotesSignal() else status == 1 && c == WaitFailed(false)
  }

  /** A run that has come to the call that ends it. */
  ghost predicate Ending(log: seq<Call>, base: seq<Call>, multi: nat, status: int) {
    && Since(log, base) && |log| > |base| && Orderly(log, |base|, multi)
    && AtWork(log[..|log| - 1], |base|) && Ends(log[|log| - 1], status)
  }

  /** A run that ended: at work up to the call that ended it, and then every child was signalled. */
  ghost predicate Ended(log: seq<Call>, base: seq<Call>, multi: nat, status: int) {
    && Since(log, base) && Orderly(log, |base|, multi) && AllSignalled(log)
    && var n := |log| - |Extant(log)| - 1;
       |base| <= n && AtWork(log[..n], |base|) && Ends(log[n], status)
  }

  lemma KillsEnd(log: seq<Call>, base: seq<Call>, multi: nat, status: int, kills: seq<Call>)
    requires Ending(log, base, multi, status) && AllSignalled(log + kills) && |kills| == |Extant(log + kills)|
    requires forall k :: 0 <= k < |kills| ==> kills[k].Killed?
    ensures Ended(log + kills, base, multi, status)
  {
    KillsInOrder(log, base, multi, kills);
    assert (log + kills)[..|log| - 1] == log[..|log| - 1];
  }

  /** A run that ended has not ended in a child. */
  lemma EndedByParent(log: seq<Call>, base: seq<Call>, multi: nat, status: int)
    requires Ended(log, base, multi, status)
    ensures log[|log| - 1] != Cloned
  {
    SignalledOnce(log);
  }

  lemma EndingNow(log: seq<Call>, base: seq<Call>, multi: nat, looks: nat, c: Call, status: int)
    requires Working(log, base, multi, looks) && Ends(c, status) && (if c.Polled? then looks < 3 else Due(log, |base|, multi, c))
    ensures Ending(log + [c], base, multi, status)
  {
    var after := log + [c];
    assert after[..|after| - 1] == log && after[|log|] == c;
    SinceMore(log, base, c);
    OneMore(log, |base|, multi, c);
  }

  /** The process that a fork has made: the parent was at work until then. */
  ghost predicate InClone(log: seq<Call>, base: seq<Call>, multi: nat) {
    && Since(log, base) && |log| > |base| && Orderly(log, |base|, multi)
    && AtWork(log[..|log| - 1], |base|) && log[|log| - 1] == Cloned
  }

  lemma ClonedNow(log: seq<Call>, base: seq<Call>, multi: nat, looks: nat)
    requires Working(log, base, multi, looks) && Due(log, |base|, multi, Cloned)
    ensures InClone(log + [Cloned], base, multi)
  {
    var after := log + [Cloned];
    assert after[..|after| - 1] == log && after[|log|] == Cloned;
    SinceMore(log, base, Cloned);
    OneMore(log, |base|, multi, Cloned);
  }

  // ---------------------------------------------------------------- the parent

  datatype Outcome = Running | Terminated(status: int) | InChild

  class Pool {
    const multi: nat
    const kernel: Kernel
    const kidpids: array<int>
    var procs: int

    /** The slots hold exactly the children that exist, and `procs` counts them. */
    ghost predicate Valid()
      reads this, kernel, kidpids
    {
      && kernel.Valid() && multi >= 1 && kidpids.Length == multi
      && HoldsExactly(kidpids[..], kernel.children)
      && procs == |Occupied(kidpids[..])| && procs <= multi
    }

    constructor (multi: nat, kernel: Kernel)
      requires multi >= 1 && kernel.Valid() && kernel.children == {}
      ensures Valid() && fresh(kidpids) && this.kernel == kernel && this.multi == multi && procs == 0
    {
      this.multi, this.kernel, procs := multi, kernel, 0;
      var slots := new int[multi];
      kidpids := slots;
      new;
      for i := 0 to multi
        invariant procs == 0 && forall k :: 0 <= k < i ==> slots[k] == 0
      {
        slots[i] := 0;
      }
      assert forall i :: 0 <= i < multi ==> kidpids[..][i] == 0;
      assert Occupied(kidpids[..]) == {};
      SlotsHold(kidpids[..], {});
    }

    /** Sends SIGTERM to the process of every occupied slot. */
    method KillAll()
      requires Valid()
      modifies kernel`log, kernel`clock
      ensures Valid() && AllSignalled(kernel.log) && Extant(kernel.log) == old(Extant(kernel.log))
      ensures kernel.log == old(kernel.log) + Kills(kidpids[..]) && |Kills(kidpids[..])| == |Extant(kernel.log)|
    {
      ghost var before := kernel.log;
      for i := 0 to multi
        invariant kernel.Valid() && kernel.log == before + Kills(kidpids[..i])
      {
        assert kidpids[..i + 1][..i] == kidpids[..i];
        if kidpids[i] != 0 {
          kernel.Kill(kidpids[i]);
        }
      }
      assert kidpids[..multi] == kidpids[..];
      ghost var slots := kidpids[..];
      KillsOfSlots(slots);
      KillsKeepExtant(before, Kills(slots));
      OccupiedIsChildren(slots, kernel.children);
      KillsReach(slots, kernel.children);
      assert kernel.log[|before|..] == Kills(slots);
    }

    /** Ends the run after a signal or a broken wait: all children are terminated. */
    method Terminate(status: int, ghost base: seq<Call>) returns (outcome: Outcome)
      requires Valid() && Ending(kernel.log, base, multi, status)
      modifies kernel`log, kernel`clock
      ensures Valid() && outcome == Terminated(status) && kernel.clock >= old(kernel.clock)
      ensures Ended(kernel.log, base, multi, status)
    {
      ghost var (before, kills) := (kernel.log, Kills(kidpids[..]));
      KillAll();
      KillsOfSlots(kidpids[..]);
      KillsEnd(before, base, multi, status, kills);
      outcome := Terminated(status);
    }

    /** Frees the slot of a child that has been waited for, while all slots are taken. */
    method Release(pid: int, ghost children: set<int>)
      requires kernel.Valid() && multi >= 1 && kidpids.Length == multi && procs == |Occupied(kidpids[..])| == multi
      requires HoldsExactly(kidpids[..], children) && pid in children && kernel.children == children - {pid}
      modifies kidpids, this`procs
      ensures Valid() && procs == old(procs) - 1
    {
      SlotsHold(kidpids[..], children);
      var i := 0;
      while i < procs
        invariant 0 <= i <= procs == old(procs) && kidpids[..] == old(kidpids[..])
        invariant forall k :: 0 <= k < i ==> kidpids[k] != pid
      {
        if kidpids[i] == pid {
          ClearSlot(kidpids[..], i, children);
          kidpids[i] := 0;
          procs := procs - 1;
          assert kidpids[..] == old(kidpids[..])[i := 0];
          break;
        }
        i := i + 1;
      }
      if i >= multi {
        // no matching child slot
        assert false;
      }
    }

    /** Takes a free slot for a child that was just forked. */
    method Occupy(pid: int, ghost children: set<int>)
      requires kernel.Valid() && multi >= 1 && kidpids.Length == multi && procs == |Occupied(kidpids[..])| < multi
      requires HoldsExactly(kidpids[..], children) && pid > 0 && pid !in children && kernel.children == children + {pid}
      modifies kidpids, this`procs
      ensures Valid() && procs == old(procs) + 1
    {
      OccupiedCount(kidpids[..]);
      var i := 0;
      while i < multi
        invariant 0 <= i <= multi && procs == old(procs) && kidpids[..] == old(kidpids[..])
        invariant forall k :: 0 <= k < i ==> kidpids[k] != 0
      {
        if kidpids[i] == 0 {
          FillSlot(kidpids[..], i, pid, children);
          kidpids[i] := pid;
          procs := procs + 1;
          assert kidpids[..] == old(kidpids[..])[i := pid];
          break;
        }
        i := i + 1;
      }
      if i >= multi {
        // no free child slot
        assert false;
      }
    }

    /** One wait of a full pool: a child is replaced, the wait was interrupted, or it is broken and all children are terminated. */
    method WaitOnce(ghost base: seq<Call>) returns (outcome: Outcome, freed: bool)
      requires Valid() && procs == multi && Working(kernel.log, base, multi, 2) && NoSignal(kernel.log, |base|)
      modifies this`procs, kidpids, kernel`clock, kernel`children, kernel`log
      ensures Valid() && kernel.clock > old(kernel.clock) && !outcome.InChild?
      ensures outcome == Running ==> Working(kernel.log, base, multi, 0) && NoSignal(kernel.log, |base|) && (freed ==> procs < multi)
      ensures outcome.Terminated? ==> Ended(kernel.log, base, multi, outcome.status)
    {
      ghost var (children, before) := (kernel.children, kernel.log);
      OccupiedIsChildren(kidpids[..], children);
      var pid, interrupted := kernel.WaitPid();
      freed := pid > 0;
      if !freed && !interrupted {
        EndingNow(before, base, multi, 2, WaitFailed(false), 1);
        outcome := Terminate(1, base);
        return;
      }
      WorkOn(before, base, multi, 2, if freed then Reaped(pid) else WaitFailed(true));
      if freed {
        Release(pid, children);
      }
      outcome := Running;
    }

    /** Waits once, and looks for a signal unless that has ended the waiting. */
    method WaitAndLook(ghost base: seq<Call>) returns (outcome: Outcome, freed: bool, sig: int)
      requires Valid() && procs == multi && Working(kernel.log, base, multi, 2) && NoSignal(kernel.log, |base|) && kernel.termsig == 0
      modifies this`procs, kidpids, kernel
      ensures Valid() && kernel.clock > old(kernel.clock) && !outcome.InChild?
      ensures outcome == Running ==>
                && Working(kernel.log, base, multi, 1) && sig == kernel.termsig
                && (sig == 0 ==> NoSignal(kernel.log, |base|)) && (freed ==> procs < multi)
      ensures outcome.Terminated? ==> Ended(kernel.log, base, multi, outcome.status)
    {
      sig := 0;
      outcome, freed := WaitOnce(base);
      if outcome == Running && !freed {
        ghost var before;
        sig, before := Look(base, 0);
      }
    }

    /** Waits for a child to replace while the pool is full. */
    method AwaitRoom(horizon: nat, ghost base: seq<Call>) returns (outcome: Outcome)
      requires Valid() && Working(kernel.log, base, multi, 1) && NoSignal(kernel.log, |base|)
      modifies this`procs, kidpids, kernel
      ensures Valid() && kernel.clock > old(kernel.clock) && !outcome.InChild?
      ensures outcome == Running ==>
                && Working(kernel.log, base, multi, 2) && (kernel.termsig == 0 ==> NoSignal(kernel.log, |base|))
                && (kernel.clock >= horizon || kernel.termsig != 0 || procs < multi)
      ensures outcome.Terminated? ==> Ended(kernel.log, base, multi, outcome.status)
    {
      outcome := Running;
      var sig, freed := 0, false;
      ghost var before;
      sig, before := Look(base, 1);
      while sig == 0 && procs >= multi && kernel.clock < horizon
        invariant Valid() && kernel.clock > old(kernel.clock) && sig == kernel.termsig && outcome == Running
        invariant Working(kernel.log, base, multi, 2) && (sig == 0 ==> NoSignal(kernel.log, |base|))
        decreases horizon - kernel.clock
      {
        outcome, freed, sig := WaitAndLook(base);
        if outcome.Terminated? || freed {
          return;
        }
      }
    }

    /** Forks once with room in the pool. */
    method ForkOnce(ghost base: seq<Call>) returns (outcome: Outcome)
      requires Valid() && procs < multi && Working(kernel.log, base, multi, 3) && NoSignal(kernel.log, |base|)
      modifies this`procs, kidpids, kernel`clock, kernel`children, kernel`log
      ensures Valid() && kernel.clock > old(kernel.clock) && !outcome.Terminated?
      ensures outcome == Running ==> Working(kernel.log, base, multi, 0) && NoSignal(kernel.log, |base|)
      ensures outcome == InChild ==> InClone(kernel.log, base, multi)
    {
      ghost var (children, before) := (kernel.children, kernel.log);
      OccupiedIsChildren(kidpids[..], children);
      var pid := kernel.Fork();
      if pid == 0 {
        ClonedNow(before, base, multi, 3);
        return InChild;
      }
      WorkOn(before, base, multi, 3, if pid > 0 then Forked(pid) else ForkFailed);
      if pid > 0 {
        Occupy(pid, children);
      }
      outcome := Running;
    }

    /**
      Keeps the pool full until a signal comes. Observed up to any number of
      kernel calls: in every state the slots hold exactly the existing children;
      forks are asked for only with room and waits only when the pool is full,
      one of them at least in every four calls; a parent that ends has signalled
      each child, because of a signal or a broken wait; and the child returns, and
      only the child, when a fork has answered 0. If all forks succeed, the pool
      is full after at most four calls for each slot.
     */
    method SpawnLoop(horizon: nat) returns (outcome: Outcome)
      requires Valid()
      modifies this`procs, kidpids, kernel
      ensures Valid() && old(kernel.log) < kernel.log && Orderly(kernel.log, |old(kernel.log)|, multi)
      ensures outcome == Running ==> kernel.clock >= horizon && AtWork(kernel.log, |old(kernel.log)|)
      ensures outcome.Terminated? ==> Ended(kernel.log, old(kernel.log), multi, outcome.status)
      ensures outcome == InChild <==> kernel.log[|kernel.log| - 1] == Cloned
      ensures outcome == InChild ==> AtWork(kernel.log[..|kernel.log| - 1], |old(kernel.log)|)
      ensures var from := |old(kernel.log)|;
              outcome == Running && |kernel.log| >= from + 4 * multi && ForksSucceed(kernel.log, from, from + 4 * multi) ==>
                FullWithin(kernel.log, multi, from, from + 4 * multi)
    {
      ghost var base := kernel.log;
      ghost var children := HasRoom();
      outcome := RunRounds(horizon, base);
      RunMeans(kernel.log, base, multi, outcome);
    }

    /** The rounds, and the end of the run if a signal has ended them. */
    method RunRounds(horizon: nat, ghost base: seq<Call>) returns (outcome: Outcome)
      requires Valid() && base == kernel.log
      modifies this`procs, kidpids, kernel
      ensures Valid() && kernel.clock > old(kernel.clock) && (outcome == Running ==> kernel.clock >= horizon)
      ensures RunDone(kernel.log, base, multi, outcome)
    {
      var sig;
      outcome, sig := Rounds(horizon, base);
      if sig != 0 {
        outcome := Terminate(0, base);
      }
    }

    /** There are never more children than slots. */
    ghost method HasRoom() returns (count: nat)
      requires Valid()
      ensures count == |Extant(kernel.log)| <= multi
    {
      OccupiedIsChildren(kidpids[..], kernel.children);
      count := |kernel.children|;
    }

    /** Looks for a signal; `before` is what was done before that. */
    method Look(ghost base: seq<Call>, ghost looks: nat) returns (sig: int, ghost before: seq<Call>)
      requires Valid() && Working(kernel.log, base, multi, looks) && looks < 3
      modifies kernel`clock, kernel`termsig, kernel`log
      ensures Valid() && sig == kernel.termsig && (old(kernel.termsig) != 0 ==> sig != 0)
      ensures before == old(kernel.log) && kernel.log == before + [Polled(sig)]
      ensures Working(kernel.log, base, multi, looks + 1)
      ensures NoSignal(kernel.log, |base|) <==> NoSignal(before, |base|) && sig == 0
    {
      before := kernel.log;
      sig := kernel.Poll();
      WorkOn(before, base, multi, looks, Polled(sig));
    }

    /** One round: waits for room, looks for a signal, forks and looks again. */
    method Round(horizon: nat, ghost base: seq<Call>) returns (outcome: Outcome, sig: int, ghost before: seq<Call>)
      requires Valid() && Working(kernel.log, base, multi, 1) && NoSignal(kernel.log, |base|)
      modifies this`procs, kidpids, kernel
      ensures Valid() && kernel.clock > old(kernel.clock)
      ensures outcome.Terminated? ==> sig == 0 && Ended(kernel.log, base, multi, outcome.status)
      ensures outcome == InChild ==> sig == 0 && InClone(kernel.log, base, multi)
      ensures outcome == Running ==>
                && Working(before, base, multi, 2) && kernel.log == before + [Polled(sig)] && Working(kernel.log, base, multi, 3)
                && (sig == 0 ==> NoSignal(kernel.log, |base|) && (Looks(kernel.log, |base|) <= 1 || kernel.clock >= horizon))
    {
      sig, before := 0, kernel.log;
      outcome := AwaitRoom(horizon, base);
      if outcome.Terminated? {
        return;
      }
      sig, before := Look(base, 2);
      if sig != 0 || procs >= multi {
        // a signal, or the observation ends in the middle of the wait
        return;
      }
      outcome := ForkOnce(base);
      if outcome == InChild {
        return;
      }
      sig, before := Look(base, 0);
    }

    /** Round after round until a signal is noted, the run has ended, or the observation ends. */
    method Rounds(horizon: nat, ghost base: seq<Call>) returns (outcome: Outcome, sig: int)
      requires Valid() && base == kernel.log
      modifies this`procs, kidpids, kernel
      ensures Valid() && kernel.clock > old(kernel.clock)
      ensures outcome == Running && sig == 0 ==>
                kernel.clock >= horizon && Working(kernel.log, base, multi, 3)
      ensures sig != 0 ==> Ending(kernel.log, base, multi, 0)
      ensures outcome.Terminated? ==> sig == 0 && Ended(kernel.log, base, multi, outcome.status)
      ensures outcome == InChild ==> sig == 0 && InClone(kernel.log, base, multi)
    {
      outcome := Running;
      StartWork(kernel.log, multi);
      ghost var before;
      sig, before := Look(base, 0);
      while sig == 0 && kernel.clock < horizon
        invariant Valid() && kernel.clock > old(kernel.clock) && outcome == Running
        invariant Working(before, base, multi, 2) && kernel.log == before + [Polled(sig)] && Working(kernel.log, base, multi, 3)
        invariant sig == 0 ==> NoSignal(kernel.log, |base|) && (Looks(kernel.log, |base|) <= 1 || kernel.clock >= horizon)
        decreases horizon - kernel.clock
      {
        outcome, sig, before := Round(horizon, base);
        if outcome != Running {
          return;
        }
      }
      if sig != 0 {
        EndingNow(before, base, multi, 2, Polled(sig), 0);
      }
    }
  }

  lemma StartWork(log: seq<Call>, multi: nat)
    ensures Working(log, log, multi, 0) && NoSignal(log, |log|)
  {
  }

  /** From the start the pool is full after at most four calls for each slot, if all forks succeed. */
  lemma Fills(log: seq<Call>, base: seq<Call>, multi: nat)
    requires Working(log, base, multi, 3) && |Extant(base)| <= multi
    ensures var from := |base|;
            |log| >= from + 4 * multi && ForksSucceed(log, from, from + 4 * multi) ==> FullWithin(log, multi, from, from + 4 * multi)
  {
    var (from, room) := (|base|, multi - |Extant(base)|);
    SinceIsLonger(log, base);
    assert log[..from] == base;
    if |log| >= from + 4 * multi && ForksSucceed(log, from, from + 4 * multi) {
      PoolFills(log, from, multi, from, room);
      var k :| from <= k <= from + 4 * room && k <= |log| && |Extant(log[..k])| == multi;
    }
  }

  /** What the loop has come to. */
  ghost predicate RunDone(log: seq<Call>, base: seq<Call>, multi: nat, outcome: Outcome) {
    match outcome
    case Running => Working(log, base, multi, 3)
    case Terminated(status) => Ended(log, base, multi, status)
    case InChild => InClone(log, base, multi)
  }

  lemma RunMeans(log: seq<Call>, base: seq<Call>, multi: nat, outcome: Outcome)
    requires |Extant(base)| <= multi && |log| > |base| && RunDone(log, base, multi, outcome)
    ensures base < log && Orderly(log, |base|, multi)
    ensures outcome == InChild <==> log[|log| - 1] == Cloned
    ensures outcome == Running ==> AtWork(log, |base|)
    ensures outcome == InChild ==> AtWork(log[..|log| - 1], |base|)
    ensures var from := |base|;
            outcome == Running && |log| >= from + 4 * multi && ForksSucceed(log, from, from + 4 * multi) ==>
              FullWithin(log, multi, from, from + 4 * multi)
  {
    SinceIsLonger(log, base);
    if outcome == Running {
      WorkAt(log, |base|, |log| - 1);
      Fills(log, base, multi);
    } else if outcome.Terminated? {
      EndedByParent(log, base, multi, outcome.status);
    }
  }
}
