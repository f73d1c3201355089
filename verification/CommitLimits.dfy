/**
  Where the guarantees of a history end: certificates are written before the
  serial file is swapped, and the write of the new serial is not checked.
 */
module CommitLimits {

  import opened Options
  import opened SerialNumbers
  import opened RevocationInfo
  import opened CaDatabase
  import opened DatabaseInvariant
  import opened CommitProtocol
  import opened IssuingRuns
  import opened CaHistory

  /** The last recorded state is the present one. */
  ghost predicate UpToDate(os: Os) {
    os.trail != [] ==> os.trail[|os.trail| - 1] == os.files
  }

  lemma {:induction false} CertificatesUpToDate(os: Os, oracle: Oracle, paths: seq<string>, certs: seq<Row>, k: nat)
    requires k <= |certs| == |paths| && UpToDate(os)
    ensures var os' := WriteCertificates(os, oracle, paths, certs, k).0;
            UpToDate(os') && os'.clock >= os.clock && |os'.trail| >= |os.trail|
  {
    if k > 0 {
      CertificatesUpToDate(os, oracle, paths, certs, k - 1);
      CreateUpToDate(WriteCertificates(os, oracle, paths, certs, k - 1).0, oracle, paths[k - 1], Pem(certs[k - 1]));
    }
  }

  lemma CreateUpToDate(os: Os, oracle: Oracle, f: string, c: Content)
    ensures var os' := Create(os, oracle, f, c).0;
            UpToDate(os') && os'.clock >= os.clock && |os'.trail| >= |os.trail|
  {
  }

  lemma CreateDone(os: Os, oracle: Oracle, f: string, c: Content)
    requires oracle(os.clock).Done? && oracle(os.clock + 1).Done?
    ensures var (os', ok) := Create(os, oracle, f, c);
            ok && os'.clock >= os.clock && Stores(os'.files, f, c) && os'.files == os.files[f := c]
  {
  }

  lemma {:induction false} CertificatesWritten(os: Os, oracle: Oracle, paths: seq<string>, certs: seq<Row>, k: nat)
    requires k <= |certs| == |paths| && forall t :: t >= os.clock ==> oracle(t).Done?
    ensures WriteCertificates(os, oracle, paths, certs, k).1
    ensures WriteCertificates(os, oracle, paths, certs, k).0.clock >= os.clock
  {
    if k > 0 {
      CertificatesWritten(os, oracle, paths, certs, k - 1);
      CreateDone(WriteCertificates(os, oracle, paths, certs, k - 1).0, oracle, paths[k - 1], Pem(certs[k - 1]));
    }
  }

  lemma SavesDone(f0: Files, oracle: Oracle, cfg: Config, rows: seq<Row>, unique: bool, next: nat)
    requires NeverFails(oracle) && NamesFit(cfg) && rows != []
    ensures var (os1, ok1) := SaveSerial(Os(f0, 0, []), oracle, cfg.serial, next);
            var (os2, ok2) := SaveIndex(os1, oracle, cfg.db, rows, unique);
            ok1 && ok2 && UpToDate(os2) && os2.trail != []
  {
  }

  lemma Prepared(f0: Files, oracle: Oracle, cfg: Config, rows: seq<Row>, unique: bool, from: nat, next: nat, certs: seq<Row>)
    requires cfg.Separate() && NeverFails(oracle) && NamesFit(cfg) && rows != []
    ensures var (os, ok) := Prepare(Os(f0, 0, []), oracle, cfg, rows, unique, from, next, certs);
            ok && UpToDate(os) && os.trail != [] && Written(os.files, f0, cfg, rows, unique, from, next, certs)
  {
    SavesDone(f0, oracle, cfg, rows, unique, next);
    PreparedFiles(Os(f0, 0, []), oracle, cfg, rows, unique, from, next, certs);
    var os1 := SaveSerial(Os(f0, 0, []), oracle, cfg.serial, next).0;
    var os2 := SaveIndex(os1, oracle, cfg.db, rows, unique).0;
    CertificatesUpToDate(os2, oracle, cfg.CertFiles(from, |certs|), certs, |certs|);
  }

  /** The batch that a run on `files` would commit. */
  function BatchOf(files: Files, cfg: Config, requests: seq<Request>): Option<Batch>
    requires cfg.db in files && files[cfg.db].Index? && cfg.serial in files && files[cfg.serial].Number?
  {
    var (rows, unique) := (files[cfg.db].rows, Unique(files, cfg));
    CertifyAll(Batch(rows, files[cfg.serial].n), ValidNames(rows, unique), unique, requests)
  }

  /** Cut off right before the rotations, a run leaves all its certificates, and the serial file, index and attributes it found. */
  lemma StopsBeforeRotation(asn1: Asn1, files: Files, cfg: Config, oracle: Oracle, requests: seq<Request>) returns (stop: nat)
    requires cfg.Separate() && NamesFit(cfg) && NeverFails(oracle)
    requires Loads(asn1, files, cfg) && HasNumber(files, cfg)
    requires Issues(files, cfg, requests)
    ensures var left := LeftBehind(asn1, files, cfg, Attempt(IssueRun(requests, true), oracle, stop));
            && Same(left, files, cfg.serial) && Same(left, files, cfg.db) && Same(left, files, Attr(cfg.db))
            && CertificatesIn(left, cfg, files[cfg.serial].n, NewRows(files, cfg, requests))
  {
    var (n, rows, unique) := (files[cfg.serial].n, files[cfg.db].rows, Unique(files, cfg));
    var b := BatchOf(files, cfg, requests).value;
    var certs := NewRows(files, cfg, requests);
    Prepared(files, oracle, cfg, b.rows, unique, n, b.next, certs);
    var os := Prepare(Os(files, 0, []), oracle, cfg, b.rows, unique, n, b.next, certs).0;
    RotateBothKeepsCerts(os, oracle, cfg);
    stop := |os.trail|;
    var os' := Execute(asn1, files, oracle, cfg, IssueRun(requests, true));
    assert os' == RotateBoth(os, oracle, cfg) by {
      ExecutesCommit(asn1, files, cfg, oracle, requests);
    }
    CutAt(files, os'.trail, os);
  }

  /** The rows that a run would add. */
  ghost function NewRows(files: Files, cfg: Config, requests: seq<Request>): (r: seq<Row>)
    requires cfg.db in files && files[cfg.db].Index? && HasNumber(files, cfg) && Issues(files, cfg, requests)
    ensures |r| == BatchOf(files, cfg, requests).value.next - files[cfg.serial].n
  {
    BatchOf(files, cfg, requests).value.rows[|files[cfg.db].rows|..]
  }

  /** A run over an acceptable batch is its commit. */
  lemma ExecutesCommit(asn1: Asn1, files: Files, cfg: Config, oracle: Oracle, requests: seq<Request>)
    requires Loads(asn1, files, cfg) && HasNumber(files, cfg)
    requires Issues(files, cfg, requests)
    ensures var b := BatchOf(files, cfg, requests).value;
            Execute(asn1, files, oracle, cfg, IssueRun(requests, true)) ==
            Commit(Os(files, 0, []), oracle, cfg, b.rows, Unique(files, cfg), files[cfg.serial].n, b.next, b.rows[|files[cfg.db].rows|..])
  {
  }

  lemma CutAt(files: Files, trail: seq<Files>, os: Os)
    requires os.trail <= trail && os.trail != [] && UpToDate(os)
    ensures LastOf(files, Cut(trail, |os.trail|)) == os.files
  {
    assert trail[..|os.trail|] == os.trail;
  }

  /**
    A run that is not disturbed leaves the next number, the new index and the
    attributes, each certificate in the file of its number, and what it found as
    old copies.
   */
  lemma CompletedRun(asn1: Asn1, files: Files, cfg: Config, oracle: Oracle, requests: seq<Request>)
    requires cfg.Separate() && NamesFit(cfg) && NeverFails(oracle)
    requires Loads(asn1, files, cfg) && HasNumber(files, cfg)
    requires Issues(files, cfg, requests)
    ensures var (final, n) := (Execute(asn1, files, oracle, cfg, IssueRun(requests, true)).files, files[cfg.serial].n);
            var b := BatchOf(files, cfg, requests).value;
            Committed(final, files, cfg, b.rows, Unique(files, cfg), n, b.next, b.rows[|files[cfg.db].rows|..])
  {
    var (n, rows, unique) := (files[cfg.serial].n, files[cfg.db].rows, Unique(files, cfg));
    var b := BatchOf(files, cfg, requests).value;
    CommitCompletes(Os(files, 0, []), oracle, cfg, b.rows, unique, n, b.next, b.rows[|rows|..]);
    ExecutesCommit(asn1, files, cfg, oracle, requests);
  }

  /**
    In a safe state a run certifies exactly when no request aborts and the names
    are free, giving the i-th accepted request the i-th next number; it issues
    when something was accepted.
   */
  lemma SafeBatch(asn1: Asn1, files: Files, cfg: Config, requests: seq<Request>)
    requires Loads(asn1, files, cfg) && HasNumber(files, cfg) && Safe(files, cfg)
    ensures var (n, rows, unique) := (files[cfg.serial].n, files[cfg.db].rows, Unique(files, cfg));
            IssuedAs(Batch(rows, n), ValidNames(rows, unique), unique, requests, BatchOf(files, cfg, requests))
    ensures Issues(files, cfg, requests) <==> BatchOf(files, cfg, requests).Some? && Acceptances(requests) != []
  {
    var (n, rows, unique) := (files[cfg.serial].n, files[cfg.db].rows, Unique(files, cfg));
    BatchIssues(Batch(rows, n), ValidNames(rows, unique), unique, requests);
  }

  /** The new rows are in the index behind the old ones, and their certificates under their numbers; number and index found are old copies. */
  ghost predicate Issued(files: Files, cfg: Config, rows: seq<Row>, unique: bool, n: nat, added: seq<Row>) {
    && Stores(files, cfg.serial, Number(n + |added|)) && Stores(files, Old(cfg.serial), Number(n))
    && Stores(files, cfg.db, Index(rows + added)) && Stores(files, Old(cfg.db), Index(rows))
    && Stores(files, Attr(cfg.db), Attributes(unique)) && CertificatesIn(files, cfg, n, added)
  }

  lemma CommittedIssued(final: Files, files: Files, cfg: Config, unique: bool, added: seq<Row>)
    requires HasNumber(files, cfg) && cfg.db in files && files[cfg.db].Index?
    requires var (n, rows) := (files[cfg.serial].n, files[cfg.db].rows);
             Committed(final, files, cfg, rows + added, unique, n, n + |added|, (rows + added)[|rows|..])
    ensures Issued(final, cfg, files[cfg.db].rows, unique, files[cfg.serial].n, added)
  {
    var (n, rows) := (files[cfg.serial].n, files[cfg.db].rows);
    assert (rows + added)[|rows|..] == added;
  }

  lemma RunAdds(asn1: Asn1, files: Files, cfg: Config, oracle: Oracle, requests: seq<Request>, added: seq<Row>)
    requires cfg.Separate() && NamesFit(cfg) && NeverFails(oracle)
    requires Loads(asn1, files, cfg) && HasNumber(files, cfg) && Issues(files, cfg, requests)
    requires BatchOf(files, cfg, requests).value == Batch(files[cfg.db].rows + added, files[cfg.serial].n + |added|)
    ensures Issued(Execute(asn1, files, oracle, cfg, IssueRun(requests, true)).files, cfg, files[cfg.db].rows, Unique(files, cfg),
                   files[cfg.serial].n, added)
  {
    CompletedRun(asn1, files, cfg, oracle, requests);
    CommittedIssued(Execute(asn1, files, oracle, cfg, IssueRun(requests, true)).files, files, cfg, Unique(files, cfg), added);
  }

  /**
    In a safe state a run that issues and is not disturbed gives the i-th accepted
    request the i-th next number: in its row, and in the name of the file that
    holds its certificate.
   */
  lemma RunIssues(asn1: Asn1, files: Files, cfg: Config, oracle: Oracle, requests: seq<Request>)
    requires cfg.Separate() && NamesFit(cfg) && NeverFails(oracle)
    requires Loads(asn1, files, cfg) && HasNumber(files, cfg) && Safe(files, cfg) && Issues(files, cfg, requests)
    ensures Issued(Execute(asn1, files, oracle, cfg, IssueRun(requests, true)).files, cfg, files[cfg.db].rows, Unique(files, cfg),
                   files[cfg.serial].n, RowsFor(files[cfg.serial].n, Acceptances(requests)))
  {
    SafeBatch(asn1, files, cfg, requests);
    RunAdds(asn1, files, cfg, oracle, requests, RowsFor(files[cfg.serial].n, Acceptances(requests)));
  }

  /** A run without a database that loads, a serial number, something to issue or the wish to commit changes nothing. */
  lemma RunIssuesNothing(asn1: Asn1, files: Files, cfg: Config, oracle: Oracle, requests: seq<Request>, commit: bool)
    requires !(commit && Loads(asn1, files, cfg) && HasNumber(files, cfg) && Issues(files, cfg, requests))
    ensures Execute(asn1, files, oracle, cfg, IssueRun(requests, commit)) == Os(files, 0, [])
  {
  }

  /** The index and the attributes are the given ones, those found are old copies, and no other file is touched. */
  ghost predicate Replaced(final: Files, files: Files, cfg: Config, rows: seq<Row>, unique: bool) {
    && (forall x :: x !in cfg.DbNames() ==> Same(final, files, x))
    && Stores(final, cfg.db, Index(rows)) && Stores(final, Attr(cfg.db), Attributes(unique))
    && KeptAsOld(final, files, cfg.db) && KeptAsOld(final, files, Attr(cfg.db))
  }

  lemma SavedNew(files: Files, oracle: Oracle, cfg: Config, rows: seq<Row>, unique: bool)
    requires NamesFit(cfg) && NeverFails(oracle) && rows != []
    ensures var (os, ok) := SaveIndex(Os(files, 0, []), oracle, cfg.db, rows, unique);
            && ok && Stores(os.files, New(cfg.db), Index(rows)) && Stores(os.files, New(Attr(cfg.db)), Attributes(unique))
            && forall x :: x != New(cfg.db) && x != New(Attr(cfg.db)) ==> Same(os.files, files, x)
  {
    NamesDiffer(cfg.db);
    SaveIndexTouches(Os(files, 0, []), oracle, cfg.db, rows, unique);
  }

  lemma SwapReplaces(f: Files, files: Files, cfg: Config, rows: seq<Row>, unique: bool)
    requires Stores(f, New(cfg.db), Index(rows)) && Stores(f, New(Attr(cfg.db)), Attributes(unique))
    requires forall x :: x != New(cfg.db) && x != New(Attr(cfg.db)) ==> Same(f, files, x)
    ensures Replaced(Swapped(f, cfg.db), files, cfg, rows, unique)
  {
    NamesDiffer(cfg.db);
    assert Same(f, files, cfg.db) && Same(f, files, Attr(cfg.db));
    var final := Swapped(f, cfg.db);
    forall x | x !in cfg.DbNames()
      ensures Same(final, files, x)
    {
      assert Same(f, files, x) && Same(final, f, x);
    }
  }

  lemma SavedAndRotated(files: Files, oracle: Oracle, cfg: Config, rows: seq<Row>, unique: bool)
    requires NamesFit(cfg) && NeverFails(oracle) && rows != []
    ensures Replaced(SaveAndRotate(Os(files, 0, []), oracle, cfg, rows, unique).files, files, cfg, rows, unique)
  {
    SavedNew(files, oracle, cfg, rows, unique);
    var os1 := SaveIndex(Os(files, 0, []), oracle, cfg.db, rows, unique).0;
    SwapReplaces(os1.files, files, cfg, rows, unique);
    RotationSucceeds(os1, oracle, cfg.db);
  }

  /** An action that changes something and is not disturbed leaves its rows as the index, and touches neither serial file nor certificates. */
  lemma CompletedAction(asn1: Asn1, files: Files, cfg: Config, oracle: Oracle, action: Action)
    requires NamesFit(cfg) && NeverFails(oracle) && Loads(asn1, files, cfg)
    requires Apply(asn1, files[cfg.db].rows, Unique(files, cfg), action).Some?
    requires var rows' := Apply(asn1, files[cfg.db].rows, Unique(files, cfg), action).value;
             rows' != [] && (action.ExpireCertificates? ==> rows' != files[cfg.db].rows)
    ensures Replaced(Execute(asn1, files, oracle, cfg, ActionRun(action)).files, files, cfg,
                     Apply(asn1, files[cfg.db].rows, Unique(files, cfg), action).value, Unique(files, cfg))
  {
    SavedAndRotated(files, oracle, cfg, Apply(asn1, files[cfg.db].rows, Unique(files, cfg), action).value, Unique(files, cfg));
  }

  /**
    A revocation that is accepted and not disturbed leaves an index in which the
    certificate's serial leads to a revoked row, whose entry reads back as what
    was asked for.
   */
  lemma RevokeRun(asn1: Asn1, files: Files, cfg: Config, oracle: Oracle, c: Certificate, how: RevocationType, arg: string, now: string)
    requires NamesFit(cfg) && NeverFails(oracle) && Loads(asn1, files, cfg)
    requires !how.StatusValid? && asn1.isUtc(now) && ',' !in now
    requires Revoke(asn1, files[cfg.db].rows, ValidNames(files[cfg.db].rows, Unique(files, cfg)), c, how, arg, now).Some?
    ensures var final := Execute(asn1, files, oracle, cfg, ActionRun(RevokeCertificate(c, how, arg, now))).files;
            && cfg.db in final && final[cfg.db].Index?
            && var (rows', key) := (final[cfg.db].rows, StripZeros(c.SerialField()));
               var j := FindKey(rows', key);
               && j >= 0 && rows'[j].Kind() == 'R'
               && ParseRevocation(asn1, rows'[j].revoked) ==
                  Some(Revocation(now, RfcReason(how, arg), if how.HoldInstruction? then asn1.oid(arg) else None,
                                  if how.KeyCompromise? || how.CaCompromise? then Some(arg) else None))
  {
    var (rows, taken) := (files[cfg.db].rows, ValidNames(files[cfg.db].rows, Unique(files, cfg)));
    RevokedReadsBack(asn1, rows, taken, c, how, arg, now);
    CompletedAction(asn1, files, cfg, oracle, RevokeCertificate(c, how, arg, now));
  }

  /** Expiring that is not disturbed leaves an index in which just the valid rows whose date has passed are marked. */
  lemma ExpireRun(asn1: Asn1, files: Files, cfg: Config, oracle: Oracle, passed: set<string>)
    requires NamesFit(cfg) && NeverFails(oracle) && Loads(asn1, files, cfg)
    ensures var (rows, final) := (files[cfg.db].rows, Execute(asn1, files, oracle, cfg, ActionRun(ExpireCertificates(passed))).files);
            && cfg.db in final && final[cfg.db].Index? && |final[cfg.db].rows| == |rows|
            && forall i :: 0 <= i < |rows| ==>
                 final[cfg.db].rows[i] == if rows[i].Kind() == 'V' && rows[i].expiry in passed then rows[i].(kind := "E") else rows[i]
  {
    if Expire(files[cfg.db].rows, passed) != files[cfg.db].rows {
      CompletedAction(asn1, files, cfg, oracle, ExpireCertificates(passed));
    }
  }

  /** An action without a database that loads, or that is refused, or expires nothing, changes nothing. */
  lemma ActionChangesNothing(asn1: Asn1, files: Files, cfg: Config, oracle: Oracle, action: Action)
    requires Loads(asn1, files, cfg) ==>
               var rows' := Apply(asn1, files[cfg.db].rows, Unique(files, cfg), action);
               rows'.None? || (action.ExpireCertificates? && rows'.value == files[cfg.db].rows)
    ensures Execute(asn1, files, oracle, cfg, ActionRun(action)) == Os(files, 0, [])
  {
  }

  /**
    A run is cut off after any call, with any calls failing but no short write.
    The number then in the serial file decides what becomes of the first serial
    of that run. Still there, every completed run that issues something writes
    its certificate file again; passed, no state of any issuing run touches that
    file; and without a number nothing is issued.
   */
  lemma ReissuedByNumberLeft(asn1: Asn1, files: Files, cfg: Config, first: Attempt, oracle: Oracle, requests: seq<Request>)
    requires cfg.Separate() && HasNumber(files, cfg) && Safe(files, cfg)
    requires first.run.IssueRun? && NoShortWrites(first.oracle)
    ensures var (n, left) := (files[cfg.serial].n, LeftBehind(asn1, files, cfg, first));
            var second := Execute(asn1, left, oracle, cfg, IssueRun(requests, true));
            if !HasNumber(left, cfg) then second == Os(left, 0, [])
            else if left[cfg.serial].n == n then
              (NamesFit(cfg) && NeverFails(oracle) && Loads(asn1, left, cfg) && Issues(left, cfg, requests)) ==>
                CertificatesIn(second.files, cfg, n, NewRows(left, cfg, requests))
            else
              left[cfg.serial].n > n &&
              (NoShortWrites(oracle) ==> forall t :: 0 <= t < |second.trail| ==> Same(second.trail[t], left, cfg.CertFile(n)))
  {
    var (n, left) := (files[cfg.serial].n, LeftBehind(asn1, files, cfg, first));
    var second := IssueRun(requests, true);
    LeftIsGood(asn1, files, cfg, first);
    if HasNumber(left, cfg) && left[cfg.serial].n == n {
      if NamesFit(cfg) && NeverFails(oracle) && Loads(asn1, left, cfg) && Issues(left, cfg, requests) {
        CompletedRun(asn1, left, cfg, oracle, requests);
      }
    } else if HasNumber(left, cfg) && NoShortWrites(oracle) {
      IssueRunIsGood(asn1, left, oracle, cfg, second);
      PassedThroughout(left, Execute(asn1, left, oracle, cfg, second).trail, cfg, n);
    }
  }

  /** What a cut-off run leaves behind is safe, and its number is not lower. */
  lemma LeftIsGood(asn1: Asn1, files: Files, cfg: Config, a: Attempt)
    requires cfg.Separate() && HasNumber(files, cfg) && Safe(files, cfg) && a.run.IssueRun? && NoShortWrites(a.oracle)
    ensures var left := LeftBehind(asn1, files, cfg, a);
            Safe(left, cfg) && (HasNumber(left, cfg) ==> files[cfg.serial].n <= left[cfg.serial].n)
  {
    RunIsGood(asn1, files, cfg, a);
    var v := Visited(asn1, files, cfg, a);
    var all := [files] + v;
    assert AllOnward(all, cfg) && all[|all| - 1] == LeftBehind(asn1, files, cfg, a);
    assert Onward(all[0], all[|all| - 1], cfg);
  }

  lemma PassedThroughout(f: Files, trail: seq<Files>, cfg: Config, n: nat)
    requires GoodRun(f, trail, cfg) && HasNumber(f, cfg) && n < f[cfg.serial].n
    ensures forall t :: 0 <= t < |trail| ==> Same(trail[t], f, cfg.CertFile(n))
  {
    var all := [f] + trail;
    forall t | 0 <= t < |trail|
      ensures Same(trail[t], f, cfg.CertFile(n))
    {
      assert Onward(all[0], all[t + 1], cfg);
    }
  }

  /** Whether a run over these requests would issue something. */
  ghost predicate Issues(files: Files, cfg: Config, requests: seq<Request>)
    requires cfg.db in files && files[cfg.db].Index? && HasNumber(files, cfg)
  {
    BatchOf(files, cfg, requests).Some? && BatchOf(files, cfg, requests).value.next > files[cfg.serial].n
  }

  /**
    The first case does happen: cut off after it wrote its certificates and
    before it swaps the serial file, a run has its serial written again by the
    next one, over its own certificate, for whatever subject is asked.
   */
  lemma StoppedRunReissues(asn1: Asn1, files: Files, cfg: Config, oracle: Oracle, first: seq<Request>, second: seq<Request>)
    returns (stop: nat)
    requires cfg.Separate() && NamesFit(cfg) && NeverFails(oracle)
    requires Loads(asn1, files, cfg) && HasNumber(files, cfg)
    requires Issues(files, cfg, first) && Issues(files, cfg, second)
    ensures var left := LeftBehind(asn1, files, cfg, Attempt(IssueRun(first, true), oracle, stop));
            var final := Execute(asn1, left, oracle, cfg, IssueRun(second, true)).files;
            && CertificatesIn(left, cfg, files[cfg.serial].n, NewRows(files, cfg, first))
            && CertificatesIn(final, cfg, files[cfg.serial].n, NewRows(files, cfg, second))
  {
    stop := StopsBeforeRotation(asn1, files, cfg, oracle, first);
    var left := LeftBehind(asn1, files, cfg, Attempt(IssueRun(first, true), oracle, stop));
    CompletedRun(asn1, left, cfg, oracle, second);
  }

  /** The last row is not below the last number given out. */
  ghost predicate EndsAtNext(b: Batch) {
    b.rows != [] && b.next > 0 && !RowBelow(b.rows[|b.rows| - 1], b.next - 1)
  }

  /** The last row of a batch that issued something is not below the last number given out. */
  lemma {:induction false} LastOfBatch(b: Batch, taken: set<string>, unique: bool, requests: seq<Request>)
    requires CertifyAll(b, taken, unique, requests).Some? && CertifyAll(b, taken, unique, requests).value.next > b.next
    ensures EndsAtNext(CertifyAll(b, taken, unique, requests).value)
    decreases |requests|
  {
    var (one, taken') := (CertifyOne(b, taken, requests[0]).value, TakenAfter(b, taken, unique, requests[0]));
    var r := CertifyAll(one, taken', unique, requests[1..]).value;
    if r.next > one.next {
      LastOfBatch(one, taken', unique, requests[1..]);
    } else {
      NewRowSerial(b, taken, requests[0]);
      LastIsFirst(b, one, r);
    }
  }

  lemma LastIsFirst(b: Batch, one: Batch, r: Batch)
    requires |one.rows| == |b.rows| + 1 && one.next == b.next + 1 && !RowBelow(one.rows[|b.rows|], b.next)
    requires one.rows <= r.rows && |r.rows| == |one.rows| && r.next == one.next
    ensures EndsAtNext(r)
  {
  }

  lemma NewRowSerial(b: Batch, taken: set<string>, request: Request)
    requires CertifyOne(b, taken, request).Some? && CertifyOne(b, taken, request).value.next > b.next
    ensures var one := CertifyOne(b, taken, request).value;
            |one.rows| == |b.rows| + 1 && one.next == b.next + 1 && !RowBelow(one.rows[|b.rows|], b.next)
  {
    SerialTextDenotes(b.next);
  }

  lemma LastDecides(rows: seq<Row>, next: nat, m: nat)
    requires EndsAtNext(Batch(rows, next)) && Below(rows, next)
    ensures Below(rows, m) <==> next <= m
  {
    if next <= m {
      BelowGrows(rows, next, m);
    } else {
      assert RowBelow(rows[|rows| - 1], next) && !RowBelow(rows[|rows| - 1], m);
    }
  }

  /** A batch is below a number exactly when that is not below the next one. */
  lemma BatchBelow(b: Batch, taken: set<string>, unique: bool, requests: seq<Request>, m: nat)
    requires Below(b.rows, b.next)
    requires CertifyAll(b, taken, unique, requests).Some? && CertifyAll(b, taken, unique, requests).value.next > b.next
    ensures var r := CertifyAll(b, taken, unique, requests).value;
            Below(r.rows, m) <==> r.next <= m
  {
    CertifyKeepsBelow(b, taken, unique, requests);
    LastOfBatch(b, taken, unique, requests);
    var r := CertifyAll(b, taken, unique, requests).value;
    LastDecides(r.rows, r.next, m);
  }

  /**
    A short write of the new serial goes unnoticed and is swapped in: a run that
    issues something ends in a safe state if and only if the number left behind
    is not below the next serial.
   */
  lemma ShortSerialWrite(asn1: Asn1, files: Files, oracle: Oracle, cfg: Config, requests: seq<Request>, m: nat)
    requires cfg.Separate() && NamesFit(cfg) && Loads(asn1, files, cfg) && HasNumber(files, cfg) && Safe(files, cfg)
    requires Issues(files, cfg, requests)
    requires oracle(1) == Short(Number(m)) && forall t :: t != 1 ==> oracle(t).Done?
    ensures Safe(Execute(asn1, files, oracle, cfg, IssueRun(requests, true)).files, cfg) <==>
            BatchOf(files, cfg, requests).value.next <= m
  {
    var (n, rows, unique) := (files[cfg.serial].n, files[cfg.db].rows, Unique(files, cfg));
    var b := BatchOf(files, cfg, requests).value;
    var certs := b.rows[|rows|..];
    ShortlyPrepared(files, oracle, cfg, b.rows, unique, n, b.next, certs, m);
    RotatedInto(Prepare(Os(files, 0, []), oracle, cfg, b.rows, unique, n, b.next, certs).0, oracle, cfg);
    ExecutesCommit(asn1, files, cfg, oracle, requests);
    BatchBelow(Batch(rows, n), ValidNames(rows, unique), unique, requests, m);
  }

  lemma ShortlyPrepared(files: Files, oracle: Oracle, cfg: Config, rows: seq<Row>, unique: bool, from: nat, next: nat, certs: seq<Row>, m: nat)
    requires cfg.Separate() && NamesFit(cfg) && rows != []
    requires oracle(1) == Short(Number(m)) && forall t :: t != 1 ==> oracle(t).Done?
    ensures var (os, ok) := Prepare(Os(files, 0, []), oracle, cfg, rows, unique, from, next, certs);
            && ok && os.clock > 1 && New(Attr(cfg.db)) in os.files
            && Stores(os.files, New(cfg.serial), Number(m)) && Stores(os.files, New(cfg.db), Index(rows))
  {
    var (ser, db) := (cfg.serial, cfg.db);
    NamesDiffer(db);
    var os1 := SaveSerial(Os(files, 0, []), oracle, ser, next).0;
    assert Stores(os1.files, New(ser), Number(m));
    var (os2, ok2) := SaveIndex(os1, oracle, db, rows, unique);
    assert ok2 && Stores(os2.files, New(db), Index(rows)) && Same(os2.files, os1.files, New(ser));
    var paths := cfg.CertFiles(from, |certs|);
    CertificatesWritten(os2, oracle, paths, certs, |certs|);
    var bare := Os(os2.files, os2.clock, []);
    CertificatesFreeze(bare, oracle, paths, certs, |certs|, os2.files, {New(ser), New(db), New(Attr(db))});
    BareTrail(os2, bare, oracle, paths, certs, |certs|);
  }

  /** Undisturbed rotations put both new files into place. */
  lemma RotatedInto(os: Os, oracle: Oracle, cfg: Config)
    requires cfg.Separate() && NamesFit(cfg)
    requires forall t :: t >= os.clock ==> oracle(t).Done?
    requires New(cfg.serial) in os.files && New(cfg.db) in os.files && New(Attr(cfg.db)) in os.files
    ensures Stores(RotateBoth(os, oracle, cfg).files, cfg.serial, os.files[New(cfg.serial)])
    ensures Stores(RotateBoth(os, oracle, cfg).files, cfg.db, os.files[New(cfg.db)])
  {
    NamesDiffer(cfg.serial);
    NamesDiffer(cfg.db);
    var (os1, ok) := RotateSerial(os, oracle, cfg.serial);
    assert ok && Stores(os1.files, cfg.serial, os.files[New(cfg.serial)]);
    assert Same(os1.files, os.files, New(cfg.db)) && Same(os1.files, os.files, New(Attr(cfg.db)));
    RotationSucceeds(os1, oracle, cfg.db);
  }
}
