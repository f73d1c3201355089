/**
  Whether the index still loads, in every state that a run or a history passes
  through. Attributes are kept in a file of their own, which is missing for a
  moment while it is swapped; then the configured default decides whether
  subjects must be unique.
 */
module CaReloads {

  import opened Options
  import opened RevocationInfo
  import opened CaDatabase
  import opened DatabaseInvariant
  import opened CommitProtocol
  import opened IssuingRuns
  import opened CaHistory
  import opened IndexHistory

  /** An attribute file, if there is a readable one, says what the configuration says. */
  ghost predicate AgreesAt(f: Files, cfg: Config, x: string) {
    x in f && f[x].Attributes? ==> f[x].unique == cfg.unique
  }

  /** The attributes agree with the configuration, and while there are none their old copy does. */
  ghost predicate Agrees(f: Files, cfg: Config) {
    AgreesAt(f, cfg, Attr(cfg.db)) && (Attr(cfg.db) in f || AgreesAt(f, cfg, Old(Attr(cfg.db))))
  }

  /** An index that is there can be loaded, under the attributes in force. */
  ghost predicate Reloads(asn1: Asn1, f: Files, cfg: Config) {
    HasIndex(f, cfg) ==> Loads(asn1, f, cfg)
  }

  ghost predicate AllAgree(states: seq<Files>, cfg: Config) {
    forall t :: 0 <= t < |states| ==> Agrees(states[t], cfg)
  }

  ghost predicate AllReload(asn1: Asn1, states: seq<Files>, cfg: Config) {
    forall t :: 0 <= t < |states| ==> Reloads(asn1, states[t], cfg)
  }

  // ---------------------------------------------------------------- swapping the attributes

  ghost predicate AgreesNew(f: Files, cfg: Config) {
    Agrees(f, cfg) && AgreesAt(f, cfg, New(Attr(cfg.db)))
  }

  ghost predicate AgreesSince(os: Os, from: nat, cfg: Config) {
    AgreesNew(os.files, cfg) && forall t :: from <= t < |os.trail| ==> Agrees(os.trail[t], cfg)
  }

  function AttrNames(cfg: Config): set<string> {
    {Attr(cfg.db), Old(Attr(cfg.db)), New(Attr(cfg.db))}
  }

  /** Renames among other files, and the three of the attribute file; the old copy only comes back when there is no other. */
  ghost predicate Orderly(f: Files, cfg: Config, a: string, b: string) {
    var attr := Attr(cfg.db);
    || {a, b} !! AttrNames(cfg) || (a == attr && b == Old(attr)) || (a == New(attr) && b == attr)
    || (a == Old(attr) && b == attr && attr !in f)
  }

  lemma RenameAgrees(os: Os, oracle: Oracle, a: string, b: string, from: nat, cfg: Config)
    requires AgreesSince(os, from, cfg) && from <= |os.trail| && Orderly(os.files, cfg, a, b)
    ensures AgreesSince(Rename(os, oracle, a, b).0, from, cfg)
  {
    NamesDiffer(cfg.db);
    var f := Rename(os, oracle, a, b).0.files;
    if {a, b} !! AttrNames(cfg) {
      assert forall x :: x in AttrNames(cfg) ==> Same(f, os.files, x);
    }
    assert AgreesNew(f, cfg);
  }

  lemma AttrNamesApart(cfg: Config)
    ensures {cfg.db, New(cfg.db), Old(cfg.db)} !! AttrNames(cfg)
  {
    NamesDiffer(cfg.db);
  }

  lemma UndoAgrees(os: Os, oracle: Oracle, from: nat, cfg: Config)
    requires AgreesSince(os, from, cfg) && from <= |os.trail|
    ensures AgreesSince(UndoDb(os, oracle, cfg.db), from, cfg)
  {
    AttrNamesApart(cfg);
    RenameAgrees(os, oracle, cfg.db, New(cfg.db), from, cfg);
    RenameAgrees(Rename(os, oracle, cfg.db, New(cfg.db)).0, oracle, Old(cfg.db), cfg.db, from, cfg);
  }

  lemma RotateIndexAgrees(os: Os, oracle: Oracle, cfg: Config)
    requires AgreesNew(os.files, cfg)
    ensures AgreesSince(RotateIndex(os, oracle, cfg.db).0, |os.trail|, cfg)
  {
    var (from, db) := (|os.trail|, cfg.db);
    AttrNamesApart(cfg);
    RenameAgrees(os, oracle, db, Old(db), from, cfg);
    var os1 := Rename(os, oracle, db, Old(db)).0;
    RenameAgrees(os1, oracle, New(db), db, from, cfg);
    var os2 := Rename(os1, oracle, New(db), db).0;
    RenameAgrees(os2, oracle, Old(db), db, from, cfg);
    AttrRenamesAgree(os2, oracle, from, cfg);
  }

  /** The second half of a rotation, with its roll backs. */
  lemma AttrRenamesAgree(os: Os, oracle: Oracle, from: nat, cfg: Config)
    requires AgreesSince(os, from, cfg) && from <= |os.trail|
    ensures var attr := Attr(cfg.db);
            var (os3, e3) := Rename(os, oracle, attr, Old(attr));
            var (os4, e4) := Rename(os3, oracle, New(attr), attr);
            && AgreesSince(UndoDb(os3, oracle, cfg.db), from, cfg) && AgreesSince(os4, from, cfg)
            && (!e3.Failed? && !e4.Ok? ==> AgreesSince(UndoDb(Rename(os4, oracle, Old(attr), attr).0, oracle, cfg.db), from, cfg))
  {
    var attr := Attr(cfg.db);
    RenameAgrees(os, oracle, attr, Old(attr), from, cfg);
    var (os3, e3) := Rename(os, oracle, attr, Old(attr));
    UndoAgrees(os3, oracle, from, cfg);
    RenameAgrees(os3, oracle, New(attr), attr, from, cfg);
    var (os4, e4) := Rename(os3, oracle, New(attr), attr);
    if !e3.Failed? && !e4.Ok? {
      NamesDiffer(cfg.db);
      assert attr !in os4.files;
      RenameAgrees(os4, oracle, Old(attr), attr, from, cfg);
      UndoAgrees(Rename(os4, oracle, Old(attr), attr).0, oracle, from, cfg);
    }
  }

  lemma FrozenAgrees(f: Files, files: Files, cfg: Config)
    requires Frozen(f, files, Deciding(cfg)) && Agrees(files, cfg)
    ensures Agrees(f, cfg)
  {
    assert Same(f, files, Attr(cfg.db)) && Same(f, files, Old(Attr(cfg.db)));
  }

  /** Attributes that agree do so throughout a run. */
  lemma RunAgrees(asn1: Asn1, files: Files, oracle: Oracle, cfg: Config, run: Run, t: nat)
    requires cfg.Separate() && NoShortWrites(oracle) && Agrees(files, cfg)
    requires t < |Execute(asn1, files, oracle, cfg, run).trail|
    ensures Agrees(Execute(asn1, files, oracle, cfg, run).trail[t], cfg)
  {
    if Saves(asn1, files, cfg, run).None? {
      UnsavedFrozen(asn1, files, oracle, cfg, run);
      FrozenAgrees(Execute(asn1, files, oracle, cfg, run).trail[t], files, cfg);
    } else {
      Approaches(asn1, files, oracle, cfg, run);
      var (os, rotates) := Approach(asn1, files, oracle, cfg, run);
      if rotates {
        RotateIndexExtends(os, oracle, cfg.db);
        FrozenAgrees(os.files, files, cfg);
        RotateIndexAgrees(os, oracle, cfg);
      }
      if t < |os.trail| {
        FrozenAgrees(os.trail[t], files, cfg);
      }
    }
  }

  // ---------------------------------------------------------------- one run

  lemma CutIsSound(asn1: Asn1, rows: seq<Row>, p: seq<Row>, unique: bool)
    requires Sound(asn1, rows, unique) && p <= rows
    ensures Sound(asn1, p, unique)
  {
    assert forall i :: 0 <= i < |p| ==> p[i] == rows[i];
  }

  /** Rows found and rows saved that both meet what the attributes in force ask for. */
  lemma StateReloads(asn1: Asn1, f: Files, files: Files, cfg: Config, rows': seq<Row>, oracle: Oracle, unique: bool)
    requires HasIndex(files, cfg) && IndexFrom(f, files, cfg, rows', oracle)
    requires Sound(asn1, files[cfg.db].rows, unique) && Sound(asn1, rows', unique) && (Unique(f, cfg) ==> unique)
    ensures Reloads(asn1, f, cfg)
  {
    if HasIndex(f, cfg) && f[cfg.db] != files[cfg.db] {
      CutIsSound(asn1, rows', f[cfg.db].rows, unique);
    }
  }

  lemma FrozenReloads(asn1: Asn1, f: Files, files: Files, cfg: Config)
    requires Frozen(f, files, Deciding(cfg)) && Reloads(asn1, files, cfg)
    ensures Reloads(asn1, f, cfg)
  {
    assert Same(f, files, cfg.db) && Same(f, files, Attr(cfg.db));
  }

  /** If the attributes agree, the index that a run finds loads in every state of it. */
  lemma RunReloads(asn1: Asn1, files: Files, oracle: Oracle, cfg: Config, run: Run, t: nat)
    requires cfg.Separate() && NoShortWrites(oracle) && DatedRun(asn1, run) && Agrees(files, cfg) && Reloads(asn1, files, cfg)
    requires t < |Execute(asn1, files, oracle, cfg, run).trail|
    ensures Reloads(asn1, Execute(asn1, files, oracle, cfg, run).trail[t], cfg)
  {
    var f := Execute(asn1, files, oracle, cfg, run).trail[t];
    if Saves(asn1, files, cfg, run).None? {
      UnsavedFrozen(asn1, files, oracle, cfg, run);
      FrozenReloads(asn1, f, files, cfg);
    } else {
      SavesSuccessor(asn1, files, cfg, run);
      SavedStates(asn1, files, oracle, cfg, run, t);
      RunAgrees(asn1, files, oracle, cfg, run, t);
      StateReloads(asn1, f, files, cfg, Saves(asn1, files, cfg, run).value, oracle, cfg.unique);
    }
  }

  /** And whatever the attributes are, if the valid names are unique before and after. */
  lemma NamesReload(asn1: Asn1, files: Files, oracle: Oracle, cfg: Config, run: Run, t: nat)
    requires cfg.Separate() && NoShortWrites(oracle) && DatedRun(asn1, run) && Saves(asn1, files, cfg, run).Some?
    requires ValidNamesUnique(files[cfg.db].rows) && ValidNamesUnique(Saves(asn1, files, cfg, run).value)
    requires t < |Execute(asn1, files, oracle, cfg, run).trail|
    ensures Reloads(asn1, Execute(asn1, files, oracle, cfg, run).trail[t], cfg)
  {
    SavesSuccessor(asn1, files, cfg, run);
    SavedStates(asn1, files, oracle, cfg, run, t);
    StateReloads(asn1, Execute(asn1, files, oracle, cfg, run).trail[t], files, cfg, Saves(asn1, files, cfg, run).value, oracle, true);
  }

  // ---------------------------------------------------------------- all histories

  ghost predicate DatedHistory(asn1: Asn1, attempts: seq<Attempt>) {
    forall i :: 0 <= i < |attempts| ==> NoShortWrites(attempts[i].oracle) && DatedRun(asn1, attempts[i].run)
  }

  /**
    If the attributes agree with the configuration and the index loads, then in
    every state of every history, cut off after any call, the attributes agree
    and an index that is there loads.
   */
  lemma {:induction false} EveryHistoryReloads(asn1: Asn1, files: Files, cfg: Config, attempts: seq<Attempt>)
    requires cfg.Separate() && Agrees(files, cfg) && Reloads(asn1, files, cfg) && DatedHistory(asn1, attempts)
    ensures AllAgree(History(asn1, files, cfg, attempts), cfg) && AllReload(asn1, History(asn1, files, cfg, attempts), cfg)
    decreases |attempts|
  {
    if attempts != [] {
      var (a, trail) := (attempts[0], Execute(asn1, files, attempts[0].oracle, cfg, attempts[0].run).trail);
      forall t | 0 <= t < |trail|
        ensures Agrees(trail[t], cfg) && Reloads(asn1, trail[t], cfg)
      {
        RunAgrees(asn1, files, a.oracle, cfg, a.run, t);
        RunReloads(asn1, files, a.oracle, cfg, a.run, t);
      }
      EveryHistoryReloads(asn1, LeftBehind(asn1, files, cfg, a), cfg, attempts[1..]);
    }
  }
}
