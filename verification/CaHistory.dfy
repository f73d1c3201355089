/**
  Histories: any sequence of runs, each on the disk that the one before left
  behind, each stopping after any call.
 */
module CaHistory {

  import opened Options
  import opened SerialNumbers
  import opened RevocationInfo
  import opened CaDatabase
  import opened DatabaseInvariant
  import opened CommitProtocol
  import opened IssuingRuns

  /** A run, how its calls end, and after how many calls it is cut off. */
  datatype Attempt = Attempt(run: Run, oracle: Oracle, stop: nat)

  ghost function Cut(trail: seq<Files>, stop: nat): seq<Files> {
    if stop < |trail| then trail[..stop] else trail
  }

  ghost function LastOf(files: Files, visited: seq<Files>): Files {
    if visited == [] then files else visited[|visited| - 1]
  }

  ghost function Visited(asn1: Asn1, files: Files, cfg: Config, a: Attempt): seq<Files> {
    Cut(Execute(asn1, files, a.oracle, cfg, a.run).trail, a.stop)
  }

  ghost function LeftBehind(asn1: Asn1, files: Files, cfg: Config, a: Attempt): Files {
    LastOf(files, Visited(asn1, files, cfg, a))
  }

  /** Every disk state, in order, starting with the given one. */
  ghost function History(asn1: Asn1, files: Files, cfg: Config, attempts: seq<Attempt>): (h: seq<Files>)
    ensures h != [] && h[0] == files
    decreases |attempts|
  {
    if attempts == [] then [files]
    else
      var rest := History(asn1, LeftBehind(asn1, files, cfg, attempts[0]), cfg, attempts[1..]);
      [files] + Visited(asn1, files, cfg, attempts[0]) + rest
  }

  /** A revocation names a certificate in the index, or one whose serial the serial file has passed. */
  ghost predicate Admissible(asn1: Asn1, files: Files, cfg: Config, run: Run) {
    run.ActionRun? && run.action.RevokeCertificate? && Loads(asn1, files, cfg) ==>
      || FindKey(files[cfg.db].rows, StripZeros(run.action.certificate.SerialField())) >= 0
      || (HasNumber(files, cfg) ==> run.action.certificate.serial < files[cfg.serial].n)
  }

  /** No short write, no issuing action outside the serial file, only admissible revocations. */
  ghost predicate Regular(asn1: Asn1, files: Files, cfg: Config, attempts: seq<Attempt>)
    decreases |attempts|
  {
    attempts == [] ||
    (&& NoShortWrites(attempts[0].oracle)
     && (attempts[0].run.ActionRun? ==> !attempts[0].run.action.IssueCertificate?)
     && Admissible(asn1, files, cfg, attempts[0].run)
     && Regular(asn1, LeftBehind(asn1, files, cfg, attempts[0]), cfg, attempts[1..]))
  }

  ghost predicate NumberLe(f: Files, g: Files, cfg: Config) {
    HasNumber(f, cfg) && HasNumber(g, cfg) ==> f[cfg.serial].n <= g[cfg.serial].n
  }

  /** The files of certificates whose serial the number in `f` has passed are the same in `g`. */
  ghost predicate PassedKept(f: Files, g: Files, cfg: Config) {
    HasNumber(f, cfg) ==> forall k: nat :: k < f[cfg.serial].n ==> Same(g, f, cfg.CertFile(k))
  }

  /** From `f` to `g` the number does not go back and no passed certificate is touched. */
  ghost predicate Onward(f: Files, g: Files, cfg: Config) {
    NumberLe(f, g, cfg) && PassedKept(f, g, cfg)
  }

  ghost predicate AllOnward(states: seq<Files>, cfg: Config) {
    forall i, j :: 0 <= i <= j < |states| ==> Onward(states[i], states[j], cfg)
  }

  ghost predicate AllSafe(states: seq<Files>, cfg: Config) {
    forall i :: 0 <= i < |states| ==> Safe(states[i], cfg)
  }

  /** Without a readable number nothing is issued: it stays away and the certificates stay as they are. */
  ghost predicate Dormant(states: seq<Files>, f: Files, cfg: Config) {
    forall i :: 0 <= i < |states| ==> !HasNumber(states[i], cfg) && CertsSame(states[i], f, cfg)
  }

  // ---------------------------------------------------------------- certificate files

  /** Every certificate file of `f0` is the same in all states from `from` on. */
  ghost predicate CertsFrozen(os: Os, from: nat, f0: Files, cfg: Config) {
    && (forall k: nat :: Same(os.files, f0, cfg.CertFile(k)))
    && forall t :: from <= t < |os.trail| ==> CertsSame(os.trail[t], f0, cfg)
  }

  ghost predicate CertsSame(f: Files, f0: Files, cfg: Config) {
    forall k: nat :: Same(f, f0, cfg.CertFile(k))
  }

  lemma RenameKeepsCerts(os: Os, oracle: Oracle, a: string, b: string, from: nat, f0: Files, cfg: Config)
    requires CertsFrozen(os, from, f0, cfg) && from <= |os.trail|
    requires cfg.Separate() && a in cfg.SerialNames() + cfg.DbNames() && b in cfg.SerialNames() + cfg.DbNames()
    ensures CertsFrozen(Rename(os, oracle, a, b).0, from, f0, cfg)
    ensures |Rename(os, oracle, a, b).0.trail| == |os.trail| + 1
  {
    var os' := Rename(os, oracle, a, b).0;
    forall k: nat
      ensures Same(os'.files, f0, cfg.CertFile(k))
    {
      assert cfg.CertFile(k) !in cfg.SerialNames() + cfg.DbNames();
      assert Same(os.files, f0, cfg.CertFile(k));
    }
    assert CertsSame(os'.files, f0, cfg);
  }

  lemma UndoKeepsCerts(os: Os, oracle: Oracle, from: nat, f0: Files, cfg: Config)
    requires CertsFrozen(os, from, f0, cfg) && from <= |os.trail| && cfg.Separate()
    ensures CertsFrozen(UndoDb(os, oracle, cfg.db), from, f0, cfg)
  {
    RenameKeepsCerts(os, oracle, cfg.db, New(cfg.db), from, f0, cfg);
    RenameKeepsCerts(Rename(os, oracle, cfg.db, New(cfg.db)).0, oracle, Old(cfg.db), cfg.db, from, f0, cfg);
  }

  lemma RotateIndexKeepsCerts(os: Os, oracle: Oracle, from: nat, f0: Files, cfg: Config)
    requires CertsFrozen(os, from, f0, cfg) && from <= |os.trail| && cfg.Separate()
    ensures CertsFrozen(RotateIndex(os, oracle, cfg.db).0, from, f0, cfg)
  {
    var (db, attr) := (cfg.db, Attr(cfg.db));
    RenameKeepsCerts(os, oracle, db, Old(db), from, f0, cfg);
    var os1 := Rename(os, oracle, db, Old(db)).0;
    RenameKeepsCerts(os1, oracle, New(db), db, from, f0, cfg);
    var os2 := Rename(os1, oracle, New(db), db).0;
    RenameKeepsCerts(os2, oracle, Old(db), db, from, f0, cfg);
    RenameKeepsCerts(os2, oracle, attr, Old(attr), from, f0, cfg);
    var os3 := Rename(os2, oracle, attr, Old(attr)).0;
    UndoKeepsCerts(os3, oracle, from, f0, cfg);
    RenameKeepsCerts(os3, oracle, New(attr), attr, from, f0, cfg);
    var os4 := Rename(os3, oracle, New(attr), attr).0;
    RenameKeepsCerts(os4, oracle, Old(attr), attr, from, f0, cfg);
    UndoKeepsCerts(Rename(os4, oracle, Old(attr), attr).0, oracle, from, f0, cfg);
  }

  // ---------------------------------------------------------------- one issuing run

  lemma BelowGrows(rows: seq<Row>, n: nat, n': nat)
    requires Below(rows, n) && n <= n'
    ensures Below(rows, n')
  {
    forall i | 0 <= i < |rows|
      ensures RowBelow(rows[i], n')
    {
      assert RowBelow(rows[i], n);
    }
  }

  /** Certificates below `from` are left alone while everything is being written. */
  lemma PrepareKeepsPassed(f0: Files, oracle: Oracle, cfg: Config, rows: seq<Row>, unique: bool, from: nat, next: nat, certs: seq<Row>, k: nat)
    requires cfg.Separate() && k < from
    ensures AllFrozen(Prepare(Os(f0, 0, []), oracle, cfg, rows, unique, from, next, certs).0, f0, {cfg.CertFile(k)})
  {
    forall n: nat | from <= n
      ensures cfg.CertFile(n) !in {cfg.CertFile(k)}
    {
      CertFilesDiffer(cfg, n, k);
    }
    assert cfg.CertFile(k) !in cfg.SerialNames() + cfg.DbNames();
    PrepareFreezes(Os(f0, 0, []), oracle, cfg, rows, unique, from, next, certs, f0, {cfg.CertFile(k)});
  }

  lemma RotateBothKeepsCerts(os: Os, oracle: Oracle, cfg: Config)
    requires cfg.Separate()
    ensures CertsFrozen(RotateBoth(os, oracle, cfg), |os.trail|, os.files, cfg)
    ensures os.trail <= RotateBoth(os, oracle, cfg).trail
  {
    var (from, f0, ser) := (|os.trail|, os.files, cfg.serial);
    assert CertsFrozen(os, from, f0, cfg);
    RenameKeepsCerts(os, oracle, ser, Old(ser), from, f0, cfg);
    var os1 := Rename(os, oracle, ser, Old(ser)).0;
    RenameKeepsCerts(os1, oracle, New(ser), ser, from, f0, cfg);
    var os2 := Rename(os1, oracle, New(ser), ser).0;
    RenameKeepsCerts(os2, oracle, Old(ser), ser, from, f0, cfg);
    var (os3, ok) := RotateSerial(os, oracle, ser);
    assert os.trail <= os3.trail;
    RotateIndexKeepsCerts(os3, oracle, from, f0, cfg);
    RotateIndexExtends(os3, oracle, cfg.db);
  }

  /** The trail of a commit: passed certificates untouched throughout, all certificates from the rotations on. */
  lemma CommitKeepsCerts(f0: Files, oracle: Oracle, cfg: Config, rows: seq<Row>, unique: bool, from: nat, next: nat, certs: seq<Row>)
    requires cfg.Separate()
    ensures var trail := Commit(Os(f0, 0, []), oracle, cfg, rows, unique, from, next, certs).trail;
            var prepared := Prepare(Os(f0, 0, []), oracle, cfg, rows, unique, from, next, certs).0;
            && (forall t, k: nat :: 0 <= t < |trail| && k < from ==> Same(trail[t], f0, cfg.CertFile(k)))
            && (forall t :: |prepared.trail| <= t < |trail| ==> CertsSame(trail[t], prepared.files, cfg))
  {
    var (prepared, ok) := Prepare(Os(f0, 0, []), oracle, cfg, rows, unique, from, next, certs);
    var trail := Commit(Os(f0, 0, []), oracle, cfg, rows, unique, from, next, certs).trail;
    if ok {
      RotateBothKeepsCerts(prepared, oracle, cfg);
    }
    forall t, k: nat | 0 <= t < |trail| && k < from
      ensures Same(trail[t], f0, cfg.CertFile(k))
    {
      PrepareKeepsPassed(f0, oracle, cfg, rows, unique, from, next, certs, k);
      assert cfg.CertFile(k) in {cfg.CertFile(k)};
      assert Same(prepared.files, f0, cfg.CertFile(k));
      if t < |prepared.trail| {
        assert trail[t] == prepared.trail[t];
        assert Frozen(prepared.trail[t], f0, {cfg.CertFile(k)});
      } else {
        assert CertsSame(trail[t], prepared.files, cfg);
        assert Same(trail[t], prepared.files, cfg.CertFile(k));
      }
    }
  }

  /** What one run guarantees of the states it passes through, the first one included. */
  ghost predicate GoodRun(files: Files, trail: seq<Files>, cfg: Config) {
    && AllSafe(trail, cfg) && AllOnward([files] + trail, cfg)
    && (!HasNumber(files, cfg) ==> Dormant(trail, files, cfg))
  }

  lemma SameTransitive(f: Files, g: Files, h: Files, x: string)
    requires Same(f, h, x) && Same(g, h, x)
    ensures Same(g, f, x)
  {
  }

  lemma ShapedIsOnward(f0: Files, trail: seq<Files>, cfg: Config, next: nat, rows: seq<Row>, oracle: Oracle, m: nat, certs: Files, i: nat, j: nat)
    requires HasNumber(f0, cfg) && f0[cfg.serial].n <= next
    requires Shaped(trail, f0, cfg, next, rows, oracle, m)
    requires forall t, k: nat :: 0 <= t < |trail| && k < f0[cfg.serial].n ==> Same(trail[t], f0, cfg.CertFile(k))
    requires forall t :: m <= t < |trail| ==> CertsSame(trail[t], certs, cfg)
    requires i <= j < |trail|
    ensures Onward(trail[i], trail[j], cfg)
  {
    assert if i < m then Early(trail[i], f0, cfg) else Late(trail[i], f0, cfg, next, rows, oracle);
    assert if j < m then Early(trail[j], f0, cfg) else Late(trail[j], f0, cfg, next, rows, oracle);
    if HasNumber(trail[i], cfg) {
      forall k: nat | k < trail[i][cfg.serial].n
        ensures Same(trail[j], trail[i], cfg.CertFile(k))
      {
        if i < m {
          SameTransitive(trail[i], trail[j], f0, cfg.CertFile(k));
        } else {
          assert CertsSame(trail[i], certs, cfg) && CertsSame(trail[j], certs, cfg);
          SameTransitive(trail[i], trail[j], certs, cfg.CertFile(k));
        }
      }
    }
  }

  lemma LateIsSafe(f0: Files, f: Files, cfg: Config, next: nat, rows: seq<Row>, oracle: Oracle)
    requires Late(f, f0, cfg, next, rows, oracle) && Below(rows, next)
    requires cfg.db in f0 && f0[cfg.db].Index? && Below(f0[cfg.db].rows, next)
    ensures Safe(f, cfg)
    ensures HasNumber(f, cfg) ==> f[cfg.serial].n == next
  {
  }

  lemma IssueRunIsGood(asn1: Asn1, files: Files, oracle: Oracle, cfg: Config, run: Run)
    requires cfg.Separate() && NoShortWrites(oracle) && Safe(files, cfg) && run.IssueRun?
    ensures GoodRun(files, Execute(asn1, files, oracle, cfg, run).trail, cfg)
  {
    var trail := Execute(asn1, files, oracle, cfg, run).trail;
    if trail != [] {
      var (rows, unique, first) := (files[cfg.db].rows, Unique(files, cfg), files[cfg.serial].n);
      var b := CertifyAll(Batch(rows, first), ValidNames(rows, unique), unique, run.requests).value;
      var certs := b.rows[|rows|..];
      CertifyKeepsBelow(Batch(rows, first), ValidNames(rows, unique), unique, run.requests);
      BelowGrows(rows, first, b.next);
      var m := CommitIsShaped(files, oracle, cfg, b.rows, unique, first, b.next, certs);
      CommitKeepsCerts(files, oracle, cfg, b.rows, unique, first, b.next, certs);
      var prepared := Prepare(Os(files, 0, []), oracle, cfg, b.rows, unique, first, b.next, certs).0;
      assert trail == Commit(Os(files, 0, []), oracle, cfg, b.rows, unique, first, b.next, certs).trail;
      forall t | 0 <= t < |trail|
        ensures Safe(trail[t], cfg) && Onward(files, trail[t], cfg)
      {
        if t < m {
          assert Early(trail[t], files, cfg);
        } else {
          LateIsSafe(files, trail[t], cfg, b.next, b.rows, oracle);
        }
      }
      forall i, j | 0 <= i <= j < |trail|
        ensures Onward(trail[i], trail[j], cfg)
      {
        ShapedIsOnward(files, trail, cfg, b.next, b.rows, oracle, m, prepared.files, i, j);
      }
      Prepend(files, trail, cfg);
    }
  }

  lemma Prepend(f: Files, trail: seq<Files>, cfg: Config)
    requires AllOnward(trail, cfg) && forall t :: 0 <= t < |trail| ==> Onward(f, trail[t], cfg)
    ensures AllOnward([f] + trail, cfg)
  {
    var all := [f] + trail;
    forall i, j | 0 <= i <= j < |all|
      ensures Onward(all[i], all[j], cfg)
    {
      if i > 0 {
        assert all[i] == trail[i - 1] && all[j] == trail[j - 1];
      }
    }
  }

  // ---------------------------------------------------------------- one revocation or expiry run

  lemma RevokeKeepsBelow(asn1: Asn1, rows: seq<Row>, taken: set<string>, c: Certificate, how: RevocationType, arg: string, now: string, n: nat)
    requires Below(rows, n) && Revoke(asn1, rows, taken, c, how, arg, now).Some?
    ensures Below(Revoke(asn1, rows, taken, c, how, arg, now).value, n) <==>
            FindKey(rows, StripZeros(c.SerialField())) >= 0 || c.serial < n
  {
    var (rows', added) := (Revoke(asn1, rows, taken, c, how, arg, now).value, FindKey(rows, StripZeros(c.SerialField())) < 0);
    RevokeSerials(asn1, rows, taken, c, how, arg, now);
    KeptBelow(rows, rows', added, n);
    if added {
      NewRowBelow(rows'[|rows|], c, n);
    }
  }

  /** The serials are as before, with one more at the end if a row was added. */
  ghost predicate SerialsKept(rows: seq<Row>, rows': seq<Row>, added: bool) {
    |rows'| == |rows| + (if added then 1 else 0) && forall i :: 0 <= i < |rows| ==> rows'[i].serial == rows[i].serial
  }

  ghost predicate SerialsAfter(rows: seq<Row>, rows': seq<Row>, added: bool, row: Row) {
    SerialsKept(rows, rows', added) && (added ==> rows'[|rows|].serial == row.serial)
  }

  lemma MarkSerials(asn1: Asn1, rows: seq<Row>, i: nat, how: RevocationType, arg: string, now: string)
    requires i < |rows| && MarkRevoked(asn1, rows, i, how, arg, now).Some?
    ensures SerialsKept(rows, MarkRevoked(asn1, rows, i, how, arg, now).value, false)
  {
  }

  lemma SameSerialBelow(r: Row, r': Row, n: nat)
    requires RowBelow(r, n) && r'.serial == r.serial
    ensures RowBelow(r', n)
  {
  }

  lemma KeptBelow(rows: seq<Row>, rows': seq<Row>, added: bool, n: nat)
    requires SerialsKept(rows, rows', added) && Below(rows, n)
    ensures Below(rows', n) <==> !added || RowBelow(rows'[|rows|], n)
  {
    forall i | 0 <= i < |rows|
      ensures RowBelow(rows'[i], n)
    {
      SameSerialBelow(rows[i], rows'[i], n);
    }
  }

  /** Revoking keeps all serials, and adds that of a certificate not in the index. */
  lemma RevokeSerials(asn1: Asn1, rows: seq<Row>, taken: set<string>, c: Certificate, how: RevocationType, arg: string, now: string)
    requires Revoke(asn1, rows, taken, c, how, arg, now).Some?
    ensures SerialsAfter(rows, Revoke(asn1, rows, taken, c, how, arg, now).value, FindKey(rows, StripZeros(c.SerialField())) < 0, c.ValidRow())
  {
    var known := FindKey(rows, StripZeros(c.SerialField()));
    if known >= 0 {
      MarkSerials(asn1, rows, known, how, arg, now);
    } else if !how.StatusValid? {
      assert Insert(rows, taken, c) == Some(rows + [c.ValidRow()]);
      MarkSerials(asn1, rows + [c.ValidRow()], |rows|, how, arg, now);
    }
  }

  lemma NewRowBelow(r: Row, c: Certificate, n: nat)
    requires r.serial == c.ValidRow().serial
    ensures RowBelow(r, n) <==> c.serial < n
  {
    if c.serial >= 0 {
      SerialTextDenotes(c.serial);
    } else {
      BytesToHexValue(-c.serial);
      assert c.SerialField()[1..] == BytesToHex(-c.serial);
    }
  }

  lemma ActionKeepsBelow(asn1: Asn1, files: Files, cfg: Config, action: Action)
    requires Loads(asn1, files, cfg) && Safe(files, cfg) && HasNumber(files, cfg)
    requires !action.IssueCertificate? && Admissible(asn1, files, cfg, ActionRun(action))
    requires Apply(asn1, files[cfg.db].rows, Unique(files, cfg), action).Some?
    ensures Below(Apply(asn1, files[cfg.db].rows, Unique(files, cfg), action).value, files[cfg.serial].n)
  {
    var (rows, unique, n) := (files[cfg.db].rows, Unique(files, cfg), files[cfg.serial].n);
    match action
    case RevokeCertificate(c, how, arg, now) => RevokeKeepsBelow(asn1, rows, ValidNames(rows, unique), c, how, arg, now, n);
    case ExpireCertificates(passed) =>
      var rows' := Expire(rows, passed);
      forall i | 0 <= i < |rows'|
        ensures RowBelow(rows'[i], n)
      {
        assert RowBelow(rows[i], n);
      }
  }

  /** The serial file is as it was, and the index, when present, is the old one or holds the first of the new rows. */
  ghost predicate Saving(f: Files, files: Files, cfg: Config, rows: seq<Row>, oracle: Oracle)
    requires cfg.db in files
  {
    Same(f, files, cfg.serial) && (cfg.db in f ==> f[cfg.db] == files[cfg.db] || SavedAs(f[cfg.db], rows, oracle))
  }

  /** While the index is saved, only its new files change. */
  lemma SaveStates(files: Files, oracle: Oracle, cfg: Config, rows: seq<Row>, unique: bool)
    requires cfg.Separate() && cfg.db in files
    ensures AllFrozen(SaveIndex(Os(files, 0, []), oracle, cfg.db, rows, unique).0, files, {cfg.serial, cfg.db})
    ensures CertsFrozen(SaveIndex(Os(files, 0, []), oracle, cfg.db, rows, unique).0, 0, files, cfg)
  {
    var (os, db) := (Os(files, 0, []), cfg.db);
    NamesDiffer(db);
    SaveIndexFreezes(os, oracle, db, rows, unique, files, {cfg.serial, db});
    var os1 := SaveIndex(os, oracle, db, rows, unique).0;
    forall k: nat
      ensures AllFrozen(os1, files, {cfg.CertFile(k)})
    {
      assert cfg.CertFile(k) !in cfg.SerialNames() + cfg.DbNames();
      SaveIndexFreezes(os, oracle, db, rows, unique, files, {cfg.CertFile(k)});
    }
    FrozenCerts(os1, files, cfg);
  }

  lemma FrozenCerts(os: Os, f0: Files, cfg: Config)
    requires forall k: nat :: AllFrozen(os, f0, {cfg.CertFile(k)})
    ensures CertsFrozen(os, 0, f0, cfg)
  {
    forall k: nat
      ensures Same(os.files, f0, cfg.CertFile(k))
      ensures forall t :: 0 <= t < |os.trail| ==> Same(os.trail[t], f0, cfg.CertFile(k))
    {
      assert AllFrozen(os, f0, {cfg.CertFile(k)}) && cfg.CertFile(k) in {cfg.CertFile(k)};
      assert forall t :: 0 <= t < |os.trail| ==> Frozen(os.trail[t], f0, {cfg.CertFile(k)});
    }
  }

  /** Every state of a save and rotation of the index: serial and certificates as before, either index. */
  lemma SwapStates(files: Files, oracle: Oracle, cfg: Config, rows: seq<Row>, unique: bool, t: nat)
    requires cfg.Separate() && cfg.db in files
    requires t < |SaveAndRotate(Os(files, 0, []), oracle, cfg, rows, unique).trail|
    ensures var f := SaveAndRotate(Os(files, 0, []), oracle, cfg, rows, unique).trail[t];
            Saving(f, files, cfg, rows, oracle) && CertsSame(f, files, cfg)
  {
    SaveStates(files, oracle, cfg, rows, unique);
    var (os1, ok) := SaveIndex(Os(files, 0, []), oracle, cfg.db, rows, unique);
    assert Same(os1.files, files, cfg.serial) && Same(os1.files, files, cfg.db);
    if ok {
      RotateIndexExtends(os1, oracle, cfg.db);
    }
    if t < |os1.trail| {
      assert Frozen(os1.trail[t], files, {cfg.serial, cfg.db});
      assert Same(os1.trail[t], files, cfg.serial) && Same(os1.trail[t], files, cfg.db);
    } else {
      SavedIndex(files, oracle, cfg, rows, unique);
      RotateIndexStates(os1, oracle, cfg, files[cfg.db], os1.files[New(cfg.db)]);
      RotateIndexKeepsCerts(os1, oracle, |os1.trail|, files, cfg);
    }
  }

  lemma SavedIndex(files: Files, oracle: Oracle, cfg: Config, rows: seq<Row>, unique: bool)
    requires SaveIndex(Os(files, 0, []), oracle, cfg.db, rows, unique).1
    ensures var f := SaveIndex(Os(files, 0, []), oracle, cfg.db, rows, unique).0.files;
            New(cfg.db) in f && SavedAs(f[New(cfg.db)], rows, oracle)
  {
    NamesDiffer(cfg.db);
  }

  /** States that keep the serial and the certificates of `files` are onward from each other. */
  lemma KeptIsOnward(files: Files, f: Files, g: Files, cfg: Config)
    requires Same(f, files, cfg.serial) && Same(g, files, cfg.serial)
    requires CertsSame(f, files, cfg) && CertsSame(g, files, cfg)
    ensures Onward(f, g, cfg)
  {
    forall k: nat
      ensures Same(g, f, cfg.CertFile(k))
    {
      SameTransitive(f, g, files, cfg.CertFile(k));
    }
  }

  lemma SwapIsGood(files: Files, oracle: Oracle, cfg: Config, rows: seq<Row>, unique: bool)
    requires cfg.Separate() && Safe(files, cfg) && cfg.db in files
    requires HasNumber(files, cfg) ==> Below(rows, files[cfg.serial].n)
    ensures GoodRun(files, SaveAndRotate(Os(files, 0, []), oracle, cfg, rows, unique).trail, cfg)
  {
    var trail := SaveAndRotate(Os(files, 0, []), oracle, cfg, rows, unique).trail;
    forall t | 0 <= t < |trail|
      ensures Saving(trail[t], files, cfg, rows, oracle) && CertsSame(trail[t], files, cfg)
      ensures Safe(trail[t], cfg) && Onward(files, trail[t], cfg)
    {
      SwapStates(files, oracle, cfg, rows, unique, t);
      KeptIsOnward(files, files, trail[t], cfg);
    }
    forall i, j | 0 <= i <= j < |trail|
      ensures Onward(trail[i], trail[j], cfg)
    {
      KeptIsOnward(files, trail[i], trail[j], cfg);
    }
    Prepend(files, trail, cfg);
  }

  lemma ActionRunIsGood(asn1: Asn1, files: Files, oracle: Oracle, cfg: Config, run: Run)
    requires cfg.Separate() && Safe(files, cfg) && run.ActionRun? && !run.action.IssueCertificate?
    requires Admissible(asn1, files, cfg, run)
    ensures GoodRun(files, Execute(asn1, files, oracle, cfg, run).trail, cfg)
  {
    var trail := Execute(asn1, files, oracle, cfg, run).trail;
    if trail == [] {
      Prepend(files, trail, cfg);
    } else {
      var (rows, unique) := (files[cfg.db].rows, Unique(files, cfg));
      var rows' := Apply(asn1, rows, unique, run.action).value;
      if HasNumber(files, cfg) {
        ActionKeepsBelow(asn1, files, cfg, run.action);
      }
      SwapIsGood(files, oracle, cfg, rows', unique);
    }
  }

  // ---------------------------------------------------------------- all histories

  lemma RunIsGood(asn1: Asn1, files: Files, cfg: Config, a: Attempt)
    requires cfg.Separate() && Safe(files, cfg) && NoShortWrites(a.oracle)
    requires a.run.ActionRun? ==> !a.run.action.IssueCertificate?
    requires Admissible(asn1, files, cfg, a.run)
    ensures GoodRun(files, Visited(asn1, files, cfg, a), cfg)
  {
    var (trail, v) := (Execute(asn1, files, a.oracle, cfg, a.run).trail, Visited(asn1, files, cfg, a));
    if a.run.IssueRun? {
      IssueRunIsGood(asn1, files, a.oracle, cfg, a.run);
    } else {
      ActionRunIsGood(asn1, files, a.oracle, cfg, a.run);
    }
    assert forall i :: 0 <= i < |[files] + v| ==> ([files] + v)[i] == ([files] + trail)[i];
  }

  /**
    In every history that starts safe: whenever both files exist every serial in
    the index is below the number, the number never goes back, and a certificate
    file whose serial the number has passed is never written again.
   */
  lemma {:induction false} EveryHistoryIsSafe(asn1: Asn1, files: Files, cfg: Config, attempts: seq<Attempt>)
    requires cfg.Separate() && Safe(files, cfg) && Regular(asn1, files, cfg, attempts)
    ensures AllSafe(History(asn1, files, cfg, attempts), cfg)
    ensures AllOnward(History(asn1, files, cfg, attempts), cfg)
    ensures !HasNumber(files, cfg) ==> Dormant(History(asn1, files, cfg, attempts), files, cfg)
    decreases |attempts|
  {
    if attempts != [] {
      var (v, left) := (Visited(asn1, files, cfg, attempts[0]), LeftBehind(asn1, files, cfg, attempts[0]));
      RunIsGood(asn1, files, cfg, attempts[0]);
      assert v != [] ==> Safe(v[|v| - 1], cfg);
      EveryHistoryIsSafe(asn1, left, cfg, attempts[1..]);
      Glue(files, v, left, History(asn1, left, cfg, attempts[1..]), cfg);
    }
  }

  /** A good run and what follows it. */
  lemma Glue(files: Files, v: seq<Files>, left: Files, rest: seq<Files>, cfg: Config)
    requires Safe(files, cfg) && GoodRun(files, v, cfg) && left == LastOf(files, v) && rest != [] && rest[0] == left
    requires AllSafe(rest, cfg) && AllOnward(rest, cfg) && (!HasNumber(left, cfg) ==> Dormant(rest, left, cfg))
    ensures AllSafe([files] + v + rest, cfg) && AllOnward([files] + v + rest, cfg)
    ensures !HasNumber(files, cfg) ==> Dormant([files] + v + rest, files, cfg)
  {
    Join([files] + v, rest, cfg);
    JoinSafe([files] + v, rest, cfg);
    if !HasNumber(files, cfg) {
      JoinDormant(files, v, rest, left, cfg);
    }
  }

  lemma OnwardTransitive(f: Files, g: Files, h: Files, cfg: Config)
    requires Onward(f, g, cfg) && Onward(g, h, cfg)
    requires !HasNumber(g, cfg) ==> !HasNumber(h, cfg) && CertsSame(h, g, cfg)
    ensures Onward(f, h, cfg)
  {
    if HasNumber(f, cfg) {
      forall k: nat | k < f[cfg.serial].n
        ensures Same(h, f, cfg.CertFile(k))
      {
        assert Same(g, f, cfg.CertFile(k)) && Same(h, g, cfg.CertFile(k));
      }
    }
  }

  /** Gluing two stretches of history at the state that ends the first and starts the second. */
  lemma Join(a: seq<Files>, b: seq<Files>, cfg: Config)
    requires a != [] && b != [] && b[0] == a[|a| - 1]
    requires AllOnward(a, cfg) && AllOnward(b, cfg)
    requires !HasNumber(b[0], cfg) ==> Dormant(b, b[0], cfg)
    ensures AllOnward(a + b, cfg)
  {
    var all := a + b;
    forall i, j | 0 <= i <= j < |all|
      ensures Onward(all[i], all[j], cfg)
    {
      if i < |a| <= j {
        assert Onward(a[i], a[|a| - 1], cfg) && Onward(b[0], b[j - |a|], cfg);
        OnwardTransitive(a[i], b[0], b[j - |a|], cfg);
      }
    }
  }

  lemma JoinSafe(a: seq<Files>, b: seq<Files>, cfg: Config)
    requires AllSafe(a, cfg) && AllSafe(b, cfg)
    ensures AllSafe(a + b, cfg)
  {
    assert forall i :: 0 <= i < |a + b| ==> (a + b)[i] == if i < |a| then a[i] else b[i - |a|];
  }

  lemma JoinDormant(files: Files, v: seq<Files>, rest: seq<Files>, left: Files, cfg: Config)
    requires !HasNumber(files, cfg) && Dormant(v, files, cfg) && Dormant(rest, left, cfg)
    requires left == if v == [] then files else v[|v| - 1]
    ensures Dormant([files] + v + rest, files, cfg)
  {
    assert CertsSame(left, files, cfg);
    forall i | 0 <= i < |rest|
      ensures CertsSame(rest[i], files, cfg)
    {
      assert CertsSame(rest[i], left, cfg);
      forall k: nat
        ensures Same(rest[i], files, cfg.CertFile(k))
      {
        assert Same(rest[i], left, cfg.CertFile(k)) && Same(left, files, cfg.CertFile(k));
      }
    }
  }
}
