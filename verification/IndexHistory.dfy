/**
  What the index holds, in every state that a run or a history passes through:
  the rows that the run found or those it saves, which evolve from them.
 */
module IndexHistory {

  import opened Options
  import opened RevocationInfo
  import opened CaDatabase
  import opened DatabaseInvariant
  import opened CommitProtocol
  import opened IssuingRuns
  import opened CaHistory
  import opened CommitLimits

  ghost predicate HasIndex(f: Files, cfg: Config) {
    cfg.db in f && f[cfg.db].Index?
  }

  // ---------------------------------------------------------------- batches

  ghost predicate Dated(asn1: Asn1, requests: seq<Request>) {
    forall i :: 0 <= i < |requests| && requests[i].Accepted? ==> asn1.isTime(requests[i].expiry)
  }

  /** The taken names cover those of the valid rows. */
  ghost predicate Covered(b: Batch, taken: set<string>, unique: bool) {
    ValidNames(b.rows, unique) <= taken
  }

  lemma CertifyOneKeeps(asn1: Asn1, b: Batch, taken: set<string>, unique: bool, request: Request)
    requires Sound(asn1, b.rows, unique) && Covered(b, taken, unique)
    requires request.Accepted? ==> asn1.isTime(request.expiry)
    requires CertifyOne(b, taken, request).Some?
    ensures var one := CertifyOne(b, taken, request).value;
            Sound(asn1, one.rows, unique) && Covered(one, TakenAfter(b, taken, unique, request), unique)
  {
    if request.Accepted? {
      var c := Certificate(b.next, request.subject, request.expiry);
      InsertKeeps(asn1, b.rows, unique, taken, c);
      InsertNames(b.rows, taken, unique, c);
    }
  }

  lemma InsertNames(rows: seq<Row>, taken: set<string>, unique: bool, c: Certificate)
    requires ValidNames(rows, unique) <= taken && Insert(rows, taken, c).Some?
    ensures ValidNames(Insert(rows, taken, c).value, unique) <= if unique then taken + {c.NameField()} else taken
  {
    var rows' := Insert(rows, taken, c).value;
    assert rows' == rows + [c.ValidRow()];
    if unique {
      forall x | x in ValidNames(rows', unique)
        ensures x in taken + {c.NameField()}
      {
        var i :| 0 <= i < |rows'| && rows'[i].Kind() == 'V' && rows'[i].name == x;
        if i < |rows| {
          assert rows[i] == rows'[i];
        }
      }
    }
  }

  /** A batch keeps the database invariant. */
  lemma {:induction false} BatchKeepsSound(asn1: Asn1, b: Batch, taken: set<string>, unique: bool, requests: seq<Request>)
    requires Sound(asn1, b.rows, unique) && Covered(b, taken, unique) && Dated(asn1, requests)
    ensures var r := CertifyAll(b, taken, unique, requests);
            r.Some? ==> Sound(asn1, r.value.rows, unique)
    decreases |requests|
  {
    if requests != [] {
      var one := CertifyOne(b, taken, requests[0]);
      if one.Some? {
        CertifyOneKeeps(asn1, b, taken, unique, requests[0]);
        BatchKeepsSound(asn1, one.value, TakenAfter(b, taken, unique, requests[0]), unique, requests[1..]);
      }
    }
  }

  // ---------------------------------------------------------------- what a run saves

  /** Runs whose dates have the syntax that the load check asks for. */
  ghost predicate DatedRun(asn1: Asn1, run: Run) {
    match run
    case IssueRun(requests, _) => Dated(asn1, requests)
    case ActionRun(action) => WellDated(asn1, action)
  }

  /** The rows that a run on this disk sets out to save; `None` when it leaves the index alone. */
  ghost function Saves(asn1: Asn1, files: Files, cfg: Config, run: Run): Option<seq<Row>> {
    if !Loads(asn1, files, cfg) || |cfg.db| + 9 >= BSIZE then None
    else
      match run
      case IssueRun(requests, commit) =>
        if commit && NamesFit(cfg) && HasNumber(files, cfg) && Issues(files, cfg, requests)
        then Some(BatchOf(files, cfg, requests).value.rows) else None
      case ActionRun(action) =>
        var changed := Apply(asn1, files[cfg.db].rows, Unique(files, cfg), action);
        if changed.Some? && action.ExpireCertificates? && changed.value == files[cfg.db].rows then None else changed
  }

  lemma EvolvesByAppending(rows: seq<Row>, rows': seq<Row>)
    requires rows <= rows'
    ensures Evolves(rows, rows')
  {
  }

  /** What is saved is sound, is not empty, and evolves from what was found. */
  ghost predicate Successor(asn1: Asn1, files: Files, cfg: Config, rows': seq<Row>)
    requires HasIndex(files, cfg)
  {
    Sound(asn1, rows', Unique(files, cfg)) && Evolves(files[cfg.db].rows, rows') && rows' != []
  }

  lemma SavesSuccessor(asn1: Asn1, files: Files, cfg: Config, run: Run)
    requires Saves(asn1, files, cfg, run).Some? && DatedRun(asn1, run)
    ensures Successor(asn1, files, cfg, Saves(asn1, files, cfg, run).value)
  {
    var (rows, unique, rows') := (files[cfg.db].rows, Unique(files, cfg), Saves(asn1, files, cfg, run).value);
    match run
    case IssueRun(requests, commit) =>
      BatchKeepsSound(asn1, Batch(rows, files[cfg.serial].n), ValidNames(rows, unique), unique, requests);
      EvolvesByAppending(rows, rows');
    case ActionRun(action) =>
      ApplyKeeps(asn1, rows, unique, action);
  }

  // ---------------------------------------------------------------- the states of a run

  /** The files that decide whether the index loads. */
  function Deciding(cfg: Config): set<string> {
    {cfg.db, Attr(cfg.db), Old(Attr(cfg.db))}
  }

  lemma DecidingApart(cfg: Config)
    requires cfg.Separate()
    ensures New(cfg.serial) !in Deciding(cfg) && New(cfg.db) !in Deciding(cfg) && New(Attr(cfg.db)) !in Deciding(cfg)
    ensures forall n: nat :: cfg.CertFile(n) !in Deciding(cfg)
  {
    NamesDiffer(cfg.db);
    assert Deciding(cfg) <= cfg.DbNames();
  }

  ghost predicate StaysFrozen(trail: seq<Files>, f0: Files, names: set<string>) {
    forall t :: 0 <= t < |trail| ==> Frozen(trail[t], f0, names)
  }

  /** A run that sets out to save nothing, or cannot, leaves index and attributes alone. */
  lemma UnsavedFrozen(asn1: Asn1, files: Files, oracle: Oracle, cfg: Config, run: Run)
    requires cfg.Separate() && Saves(asn1, files, cfg, run).None?
    ensures StaysFrozen(Execute(asn1, files, oracle, cfg, run).trail, files, Deciding(cfg))
  {
    if run.IssueRun? && Execute(asn1, files, oracle, cfg, run).trail != [] {
      var (rows, first) := (files[cfg.db].rows, files[cfg.serial].n);
      var b := BatchOf(files, cfg, run.requests).value;
      var certs := b.rows[|rows|..];
      DecidingApart(cfg);
      PrepareFreezes(Os(files, 0, []), oracle, cfg, b.rows, Unique(files, cfg), first, b.next, certs, files, Deciding(cfg));
    }
  }

  /** The index, when present, is the one found or what a save of the new rows can leave. */
  ghost predicate IndexFrom(f: Files, files: Files, cfg: Config, rows': seq<Row>, oracle: Oracle)
    requires cfg.db in files
  {
    cfg.db in f ==> f[cfg.db] == files[cfg.db] || SavedAs(f[cfg.db], rows', oracle)
  }

  /** Before the index is rotated: index and attributes as found, in every state so far. */
  ghost predicate Untouched(os: Os, files: Files, cfg: Config) {
    StaysFrozen(os.trail, files, Deciding(cfg)) && Frozen(os.files, files, Deciding(cfg))
  }

  /** The part of a commit before the index is rotated. */
  function CommitTo(os: Os, oracle: Oracle, cfg: Config, rows: seq<Row>, unique: bool, from: nat, next: nat, certs: seq<Row>): (Os, bool) {
    var (os1, ok) := Prepare(os, oracle, cfg, rows, unique, from, next, certs);
    if !ok then (os1, false) else RotateSerial(os1, oracle, cfg.serial)
  }

  /** How far a run gets before it rotates the index, and whether it does. */
  ghost function Approach(asn1: Asn1, files: Files, oracle: Oracle, cfg: Config, run: Run): (Os, bool)
    requires Saves(asn1, files, cfg, run).Some?
  {
    var (os, rows', unique) := (Os(files, 0, []), Saves(asn1, files, cfg, run).value, Unique(files, cfg));
    match run
    case IssueRun(requests, commit) =>
      CommitTo(os, oracle, cfg, rows', unique, files[cfg.serial].n, BatchOf(files, cfg, requests).value.next, rows'[|files[cfg.db].rows|..])
    case ActionRun(action) => SaveIndex(os, oracle, cfg.db, rows', unique)
  }

  /** Nothing touched so far and, if the rotation comes next, both new files written. */
  ghost predicate Approached(os: Os, rotates: bool, files: Files, cfg: Config, rows': seq<Row>, unique: bool, oracle: Oracle) {
    Untouched(os, files, cfg) && (rotates ==> NewIndexHolds(os.files, cfg, rows', unique, oracle))
  }

  /**
    Every run that saves something either leaves index and attributes alone, or
    comes to the rotation of the index with both new files written.
   */
  lemma Approaches(asn1: Asn1, files: Files, oracle: Oracle, cfg: Config, run: Run)
    requires cfg.Separate() && NoShortWrites(oracle) && Saves(asn1, files, cfg, run).Some?
    ensures var (os, rotates) := Approach(asn1, files, oracle, cfg, run);
            && Approached(os, rotates, files, cfg, Saves(asn1, files, cfg, run).value, Unique(files, cfg), oracle)
            && Execute(asn1, files, oracle, cfg, run) == if rotates then RotateIndex(os, oracle, cfg.db).0 else os
  {
    var (rows, unique, rows') := (files[cfg.db].rows, Unique(files, cfg), Saves(asn1, files, cfg, run).value);
    match run
    case IssueRun(requests, commit) =>
      ExecutesCommit(asn1, files, cfg, oracle, requests);
      CommitApproaches(files, oracle, cfg, rows', unique, files[cfg.serial].n, BatchOf(files, cfg, requests).value.next, rows'[|rows|..]);
    case ActionRun(action) =>
      DecidingApart(cfg);
      SaveIndexFreezes(Os(files, 0, []), oracle, cfg.db, rows', unique, files, Deciding(cfg));
      if SaveIndex(Os(files, 0, []), oracle, cfg.db, rows', unique).1 {
        SaveIndexWrites(Os(files, 0, []), oracle, cfg, rows', unique);
      }
  }

  lemma CommitApproaches(files: Files, oracle: Oracle, cfg: Config, rows': seq<Row>, unique: bool, from: nat, next: nat, certs: seq<Row>)
    requires cfg.Separate() && NoShortWrites(oracle)
    ensures var (os, rotates) := CommitTo(Os(files, 0, []), oracle, cfg, rows', unique, from, next, certs);
            && Approached(os, rotates, files, cfg, rows', unique, oracle)
            && Commit(Os(files, 0, []), oracle, cfg, rows', unique, from, next, certs) == if rotates then RotateIndex(os, oracle, cfg.db).0 else os
  {
    DecidingApart(cfg);
    PrepareFreezes(Os(files, 0, []), oracle, cfg, rows', unique, from, next, certs, files, Deciding(cfg));
    var (os1, prepared) := Prepare(Os(files, 0, []), oracle, cfg, rows', unique, from, next, certs);
    if prepared {
      NewFilesWritten(files, oracle, cfg, rows', unique, from, next, certs);
      SerialRotationKeeps(os1, oracle, cfg, files, rows', unique);
    }
  }

  /** Rotating the serial leaves index and attributes, old and new, alone. */
  lemma SerialRotationKeeps(os: Os, oracle: Oracle, cfg: Config, files: Files, rows': seq<Row>, unique: bool)
    requires cfg.Separate() && Untouched(os, files, cfg) && NewIndexHolds(os.files, cfg, rows', unique, oracle)
    ensures var os' := RotateSerial(os, oracle, cfg.serial).0;
            Untouched(os', files, cfg) && NewIndexHolds(os'.files, cfg, rows', unique, oracle)
  {
    var os' := RotateSerial(os, oracle, cfg.serial).0;
    forall x | x in cfg.DbNames()
      ensures KeptSame(os', os.trail, os.files, x)
    {
      RotateSerialKeeps(os, oracle, cfg, x);
    }
    assert KeptSame(os', os.trail, os.files, New(cfg.db)) && KeptSame(os', os.trail, os.files, New(Attr(cfg.db)));
    forall t | 0 <= t < |os'.trail|
      ensures Frozen(os'.trail[t], files, Deciding(cfg))
    {
      KeptIsFrozen(os, os', cfg, files, t);
    }
    forall x | x in Deciding(cfg)
      ensures Same(os'.files, files, x)
    {
      assert x in cfg.DbNames() && KeptSame(os', os.trail, os.files, x) && Same(os.files, files, x);
    }
  }

  lemma KeptIsFrozen(os: Os, os': Os, cfg: Config, files: Files, t: nat)
    requires Untouched(os, files, cfg) && t < |os'.trail|
    requires forall x :: x in cfg.DbNames() ==> KeptSame(os', os.trail, os.files, x)
    ensures Frozen(os'.trail[t], files, Deciding(cfg))
  {
    forall x | x in Deciding(cfg)
      ensures Same(os'.trail[t], files, x)
    {
      assert x in cfg.DbNames() && KeptSame(os', os.trail, os.files, x);
      if t < |os.trail| {
        assert os'.trail[t] == os.trail[t] && Frozen(os.trail[t], files, Deciding(cfg));
      } else {
        assert Same(os'.trail[t], os.files, x) && Same(os.files, files, x);
      }
    }
  }

  lemma SavedStates(asn1: Asn1, files: Files, oracle: Oracle, cfg: Config, run: Run, t: nat)
    requires cfg.Separate() && NoShortWrites(oracle) && Saves(asn1, files, cfg, run).Some?
    requires t < |Execute(asn1, files, oracle, cfg, run).trail|
    ensures IndexFrom(Execute(asn1, files, oracle, cfg, run).trail[t], files, cfg, Saves(asn1, files, cfg, run).value, oracle)
  {
    Approaches(asn1, files, oracle, cfg, run);
    var (os, rotates) := Approach(asn1, files, oracle, cfg, run);
    assert Same(os.files, files, cfg.db);
    if t < |os.trail| {
      assert Frozen(os.trail[t], files, Deciding(cfg));
      assert Same(os.trail[t], files, cfg.db);
    }
    if rotates {
      RotateIndexExtends(os, oracle, cfg.db);
      RotateIndexStates(os, oracle, cfg, files[cfg.db], os.files[New(cfg.db)]);
    }
  }

  // ---------------------------------------------------------------- rows evolve

  /** Data lost in closing a file never costs a row of those found. */
  ghost predicate Retains(oracle: Oracle, rows: seq<Row>) {
    forall t :: oracle(t).Unflushed? ==> oracle(t).kept >= |rows|
  }

  /** Of a saved successor, so many rows evolve from those found if and only if they are no fewer. */
  lemma CutEvolves(rows: seq<Row>, rows': seq<Row>, p: seq<Row>)
    requires Evolves(rows, rows') && p <= rows'
    ensures Evolves(rows, p) <==> |rows| <= |p|
  {
    if |rows| <= |p| {
      forall i | 0 <= i < |rows|
        ensures RowEvolves(rows[i], p[i])
      {
        assert RowEvolves(rows[i], rows'[i]) && p[i] == rows'[i];
      }
    }
  }

  /** An index in `g` evolves from the one in `f`. */
  ghost predicate IndexEvolves(f: Files, g: Files, cfg: Config) {
    HasIndex(f, cfg) && HasIndex(g, cfg) ==> Evolves(f[cfg.db].rows, g[cfg.db].rows)
  }

  ghost predicate AllEvolve(f: Files, states: seq<Files>, cfg: Config) {
    forall t :: 0 <= t < |states| ==> IndexEvolves(f, states[t], cfg)
  }

  lemma SameEvolves(f: Files, g: Files, cfg: Config)
    requires Same(g, f, cfg.db)
    ensures IndexEvolves(f, g, cfg)
  {
    if HasIndex(f, cfg) {
      EvolvesByAppending(f[cfg.db].rows, f[cfg.db].rows);
    }
  }

  lemma SavedEvolves(f: Files, files: Files, cfg: Config, rows': seq<Row>, oracle: Oracle)
    requires HasIndex(files, cfg) && IndexFrom(f, files, cfg, rows', oracle)
    requires Evolves(files[cfg.db].rows, rows') && Retains(oracle, files[cfg.db].rows)
    ensures IndexEvolves(files, f, cfg)
  {
    if cfg.db in f && f[cfg.db] != files[cfg.db] {
      CutEvolves(files[cfg.db].rows, rows', f[cfg.db].rows);
    } else {
      SameEvolves(files, files, cfg);
    }
  }

  lemma RunEvolves(asn1: Asn1, files: Files, oracle: Oracle, cfg: Config, run: Run)
    requires cfg.Separate() && NoShortWrites(oracle) && DatedRun(asn1, run)
    requires Loads(asn1, files, cfg) ==> Retains(oracle, files[cfg.db].rows)
    ensures AllEvolve(files, Execute(asn1, files, oracle, cfg, run).trail, cfg)
  {
    var trail := Execute(asn1, files, oracle, cfg, run).trail;
    forall t | 0 <= t < |trail|
      ensures IndexEvolves(files, trail[t], cfg)
    {
      if Saves(asn1, files, cfg, run).None? {
        UnsavedFrozen(asn1, files, oracle, cfg, run);
        assert Frozen(trail[t], files, Deciding(cfg));
        SameEvolves(files, trail[t], cfg);
      } else {
        SavesSuccessor(asn1, files, cfg, run);
        SavedStates(asn1, files, oracle, cfg, run, t);
        SavedEvolves(trail[t], files, cfg, Saves(asn1, files, cfg, run).value, oracle);
      }
    }
  }

  /** Dated runs without short writes, none of which loses a row of those it found. */
  ghost predicate Retaining(asn1: Asn1, files: Files, cfg: Config, attempts: seq<Attempt>)
    decreases |attempts|
  {
    attempts == [] ||
    (&& NoShortWrites(attempts[0].oracle) && DatedRun(asn1, attempts[0].run)
     && (Loads(asn1, files, cfg) ==> Retains(attempts[0].oracle, files[cfg.db].rows))
     && Retaining(asn1, LeftBehind(asn1, files, cfg, attempts[0]), cfg, attempts[1..]))
  }

  /**
    In every state of every history an index that is there evolves from the one
    that the history started with: no cut-off and no roll back takes a row away,
    undoes a revocation, or changes the serial, name or expiry of a row.
   */
  lemma {:induction false} EveryHistoryEvolves(asn1: Asn1, files: Files, cfg: Config, attempts: seq<Attempt>)
    requires cfg.Separate() && Retaining(asn1, files, cfg, attempts)
    ensures AllEvolve(files, History(asn1, files, cfg, attempts), cfg)
    decreases |attempts|
  {
    SameEvolves(files, files, cfg);
    if attempts != [] {
      var a := attempts[0];
      var (v, left) := (Visited(asn1, files, cfg, a), LeftBehind(asn1, files, cfg, a));
      RunEvolves(asn1, files, a.oracle, cfg, a.run);
      assert AllEvolve(files, v, cfg);
      EveryHistoryEvolves(asn1, left, cfg, attempts[1..]);
      var rest := History(asn1, left, cfg, attempts[1..]);
      forall t | 0 <= t < |rest|
        ensures IndexEvolves(files, rest[t], cfg)
      {
        StaysUnreadable(asn1, left, cfg, attempts[1..], t);
        EvolvesOver(files, left, rest[t], cfg);
      }
    }
  }

  lemma EvolvesOver(f: Files, g: Files, h: Files, cfg: Config)
    requires IndexEvolves(f, g, cfg) && IndexEvolves(g, h, cfg)
    requires HasIndex(g, cfg) || Same(h, g, cfg.db)
    ensures IndexEvolves(f, h, cfg)
  {
    if HasIndex(f, cfg) && HasIndex(g, cfg) && HasIndex(h, cfg) {
      EvolvesTransitive(f[cfg.db].rows, g[cfg.db].rows, h[cfg.db].rows);
    }
  }

  /** Where there is no index that can be read, nothing is done. */
  lemma {:induction false} StaysUnreadable(asn1: Asn1, files: Files, cfg: Config, attempts: seq<Attempt>, t: nat)
    requires t < |History(asn1, files, cfg, attempts)|
    ensures HasIndex(files, cfg) || History(asn1, files, cfg, attempts)[t] == files
    decreases |attempts|
  {
    if attempts != [] && !HasIndex(files, cfg) && t > 0 {
      assert Visited(asn1, files, cfg, attempts[0]) == [];
      StaysUnreadable(asn1, files, cfg, attempts[1..], t - 1);
    }
  }

  /** The call that writes the new rows is the only one that is not done, and keeps so many of them. */
  ghost predicate LosesRows(oracle: Oracle, run: Run, kept: nat) {
    var at := if run.IssueRun? then 3 else 1;
    oracle(at) == Unflushed(kept) && forall t :: t != at ==> oracle(t).Done?
  }

  /**
    The condition on lost data is exact: where all calls are reported as done,
    but only so many rows of the new index reach the disk, the index left behind
    evolves from the one found if and only if they are no fewer than those found.
   */
  lemma LostFlushDrops(asn1: Asn1, files: Files, oracle: Oracle, cfg: Config, run: Run, kept: nat)
    requires cfg.Separate() && Saves(asn1, files, cfg, run).Some? && DatedRun(asn1, run) && LosesRows(oracle, run, kept)
    ensures var left := Execute(asn1, files, oracle, cfg, run).files;
            HasIndex(left, cfg) && (IndexEvolves(files, left, cfg) <==> kept >= |files[cfg.db].rows|)
  {
    var (rows, rows', unique) := (files[cfg.db].rows, Saves(asn1, files, cfg, run).value, Unique(files, cfg));
    SavesSuccessor(asn1, files, cfg, run);
    match run
    case IssueRun(requests, commit) =>
      ExecutesCommit(asn1, files, cfg, oracle, requests);
      LostFlushCommitted(files, oracle, cfg, rows', unique, files[cfg.serial].n, BatchOf(files, cfg, requests).value.next, rows'[|rows|..], kept);
    case ActionRun(action) =>
      LostFlushSwapped(files, oracle, cfg, rows', unique, kept);
    CutEvolves(rows, rows', Remains(Index(rows'), kept).rows);
  }

  lemma LostFlushSwapped(files: Files, oracle: Oracle, cfg: Config, rows': seq<Row>, unique: bool, kept: nat)
    requires |cfg.db| + 9 < BSIZE && rows' != []
    requires oracle(1) == Unflushed(kept) && forall t :: t != 1 ==> oracle(t).Done?
    ensures Stores(SaveAndRotate(Os(files, 0, []), oracle, cfg, rows', unique).files, cfg.db, Remains(Index(rows'), kept))
  {
    LostFlushSaved(Os(files, 0, []), oracle, cfg, rows', unique, kept);
    RotationSucceeds(SaveIndex(Os(files, 0, []), oracle, cfg.db, rows', unique).0, oracle, cfg.db);
    NamesDiffer(cfg.db);
  }

  lemma LostFlushSaved(os: Os, oracle: Oracle, cfg: Config, rows': seq<Row>, unique: bool, kept: nat)
    requires |cfg.db| + 9 < BSIZE && rows' != []
    requires oracle(os.clock + 1) == Unflushed(kept) && forall t :: t != os.clock + 1 ==> oracle(t).Done?
    ensures var (os', ok) := SaveIndex(os, oracle, cfg.db, rows', unique);
            && ok && os'.clock == os.clock + 4 && New(Attr(cfg.db)) in os'.files
            && Stores(os'.files, New(cfg.db), Remains(Index(rows'), kept))
  {
    NamesDiffer(cfg.db);
  }

  lemma LostFlushCommitted(files: Files, oracle: Oracle, cfg: Config, rows': seq<Row>, unique: bool, from: nat, next: nat, certs: seq<Row>, kept: nat)
    requires cfg.Separate() && NamesFit(cfg) && rows' != []
    requires oracle(3) == Unflushed(kept) && forall t :: t != 3 ==> oracle(t).Done?
    ensures Stores(Commit(Os(files, 0, []), oracle, cfg, rows', unique, from, next, certs).files, cfg.db, Remains(Index(rows'), kept))
  {
    LostFlushPrepared(files, oracle, cfg, rows', unique, from, next, certs, kept);
    RotatedInto(Prepare(Os(files, 0, []), oracle, cfg, rows', unique, from, next, certs).0, oracle, cfg);
  }

  lemma LostFlushPrepared(files: Files, oracle: Oracle, cfg: Config, rows': seq<Row>, unique: bool, from: nat, next: nat, certs: seq<Row>, kept: nat)
    requires cfg.Separate() && NamesFit(cfg) && rows' != []
    requires oracle(3) == Unflushed(kept) && forall t :: t != 3 ==> oracle(t).Done?
    ensures var (os, ok) := Prepare(Os(files, 0, []), oracle, cfg, rows', unique, from, next, certs);
            && ok && os.clock > 3 && New(cfg.serial) in os.files && New(Attr(cfg.db)) in os.files
            && Stores(os.files, New(cfg.db), Remains(Index(rows'), kept))
  {
    var (ser, db, paths) := (cfg.serial, cfg.db, cfg.CertFiles(from, |certs|));
    var os1 := SaveSerial(Os(files, 0, []), oracle, ser, next).0;
    assert New(ser) in os1.files && New(ser) !in cfg.DbNames();
    LostFlushSaved(os1, oracle, cfg, rows', unique, kept);
    SaveIndexTouches(os1, oracle, db, rows', unique);
    var os2 := SaveIndex(os1, oracle, db, rows', unique).0;
    CertificatesWritten(os2, oracle, paths, certs, |certs|);
    var bare := Os(os2.files, os2.clock, []);
    CertificatesFreeze(bare, oracle, paths, certs, |certs|, os2.files, {New(ser), New(db), New(Attr(db))});
    BareTrail(os2, bare, oracle, paths, certs, |certs|);
  }
}
