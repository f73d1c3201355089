/**
  Whole runs of the certificate authority against its files: issuing with a
  serial file, revoking and expiring, each of which may stop after any call.
  The number in the serial file never goes back and every serial in the index
  stays below it, so that no serial is given out twice.
 */
module IssuingRuns {

  import opened Options
  import opened Texts
  import opened SerialNumbers
  import opened RevocationInfo
  import opened CaDatabase
  import opened DatabaseInvariant
  import opened CommitProtocol

  datatype Config = Config(serial: string, db: string, outdir: string, unique: bool)
  {
    function SerialNames(): set<string> {
      {serial, New(serial), Old(serial)}
    }

    function DbNames(): set<string> {
      {db, New(db), Old(db), Attr(db), New(Attr(db)), Old(Attr(db))}
    }

    function CertFile(n: nat): string {
      outdir + "/" + SerialText(n) + ".pem"
    }

    function CertFiles(from: nat, count: nat): (paths: seq<string>)
      ensures |paths| == count && forall i :: 0 <= i < count ==> paths[i] == CertFile(from + i)
    {
      seq(count, i requires 0 <= i < count => CertFile(from + i))
    }

    /** The configured files do not overwrite each other. */
    ghost predicate Separate() {
      SerialNames() !! DbNames() && forall n: nat :: CertFile(n) !in SerialNames() + DbNames()
    }
  }

  ghost predicate NamesFit(cfg: Config) {
    |cfg.serial| + 4 < BSIZE && |cfg.db| + 9 < BSIZE
  }

  lemma CertFilesDiffer(cfg: Config, m: nat, n: nat)
    requires m != n
    ensures cfg.CertFile(m) != cfg.CertFile(n)
  {
    if cfg.CertFile(m) == cfg.CertFile(n) {
      SameCertFile(cfg, m, n);
    }
  }

  lemma SameCertFile(cfg: Config, m: nat, n: nat)
    requires cfg.CertFile(m) == cfg.CertFile(n)
    ensures m == n
  {
    var d := |cfg.outdir| + 1;
    SerialTextDenotes(m);
    SerialTextDenotes(n);
    assert |SerialText(m)| == |SerialText(n)|;
    assert cfg.CertFile(m)[d..d + |SerialText(m)|] == SerialText(m);
    assert cfg.CertFile(n)[d..d + |SerialText(n)|] == SerialText(n);
  }

  /** What comes of a request: an error that ends the run, a refusal at the prompt, or a certificate. */
  datatype Request = Aborts | Declined | Accepted(subject: string, expiry: string)

  datatype Batch = Batch(rows: seq<Row>, next: nat)

  /** What certifying one request against rows and taken names gives. */
  function CertifyOne(b: Batch, taken: set<string>, request: Request): Option<Batch> {
    match request
    case Aborts => None
    case Declined => Some(b)
    case Accepted(subject, expiry) =>
      var rows := Insert(b.rows, taken, Certificate(b.next, subject, expiry));
      if rows.None? then None else Some(Batch(rows.value, b.next + 1))
  }

  function TakenAfter(b: Batch, taken: set<string>, unique: bool, request: Request): set<string> {
    if request.Accepted? && unique then taken + {Certificate(b.next, request.subject, request.expiry).NameField()} else taken
  }

  /** Certifies the requests in order, counting the serial up for each certificate. */
  function CertifyAll(b: Batch, taken: set<string>, unique: bool, requests: seq<Request>): (r: Option<Batch>)
    ensures r.Some? ==> b.rows <= r.value.rows && |r.value.rows| - |b.rows| == r.value.next - b.next
    decreases |requests|
  {
    if requests == [] then Some(b)
    else
      var one := CertifyOne(b, taken, requests[0]);
      if one.None? then None
      else CertifyAll(one.value, TakenAfter(b, taken, unique, requests[0]), unique, requests[1..])
  }

  /** Writes the first `k` certificates, one file each, named by serial; only failing to open one ends the run. */
  function WriteCertificates(os: Os, oracle: Oracle, paths: seq<string>, certs: seq<Row>, k: nat): (Os, bool)
    requires k <= |certs| == |paths|
  {
    if k == 0 then (os, true)
    else
      var (os1, ok) := WriteCertificates(os, oracle, paths, certs, k - 1);
      if !ok then (os1, false) else Create(os1, oracle, paths[k - 1], Pem(certs[k - 1]))
  }

  function Unique(files: Files, cfg: Config): bool {
    if Attr(cfg.db) in files && files[Attr(cfg.db)].Attributes? then files[Attr(cfg.db)].unique else cfg.unique
  }

  ghost predicate Loads(asn1: Asn1, files: Files, cfg: Config) {
    cfg.db in files && files[cfg.db].Index? && Sound(asn1, files[cfg.db].rows, Unique(files, cfg))
  }

  ghost predicate HasNumber(files: Files, cfg: Config) {
    cfg.serial in files && files[cfg.serial].Number?
  }

  /** Writes the new serial and index files under new names, and then the certificates. */
  function Prepare(os: Os, oracle: Oracle, cfg: Config, rows: seq<Row>, unique: bool, from: nat, next: nat, certs: seq<Row>): (Os, bool) {
    var (os1, ok1) := SaveSerial(os, oracle, cfg.serial, next);
    if !ok1 then (os1, false)
    else
      var (os2, ok2) := SaveIndex(os1, oracle, cfg.db, rows, unique);
      if !ok2 then (os2, false) else WriteCertificates(os2, oracle, cfg.CertFiles(from, |certs|), certs, |certs|)
  }

  /** Only when all of that is on disk are the serial and at last the index swapped in. */
  function Commit(os: Os, oracle: Oracle, cfg: Config, rows: seq<Row>, unique: bool, from: nat, next: nat, certs: seq<Row>): Os {
    var (os1, ok) := Prepare(os, oracle, cfg, rows, unique, from, next, certs);
    if !ok then os1 else RotateBoth(os1, oracle, cfg)
  }

  function RotateBoth(os: Os, oracle: Oracle, cfg: Config): Os {
    var (os1, ok) := RotateSerial(os, oracle, cfg.serial);
    if !ok then os1 else RotateIndex(os1, oracle, cfg.db).0
  }

  function SaveAndRotate(os: Os, oracle: Oracle, cfg: Config, rows: seq<Row>, unique: bool): Os {
    var (os1, ok) := SaveIndex(os, oracle, cfg.db, rows, unique);
    if !ok then os1 else RotateIndex(os1, oracle, cfg.db).0
  }

  datatype Run =
    | IssueRun(requests: seq<Request>, commit: bool)
    | ActionRun(action: Action)

  /** The disk and its trail after a run that was not stopped. */
  ghost function Execute(asn1: Asn1, files: Files, oracle: Oracle, cfg: Config, run: Run): Os {
    var os := Os(files, 0, []);
    if !Loads(asn1, files, cfg) then os
    else
      var (rows, unique) := (files[cfg.db].rows, Unique(files, cfg));
      match run
      case IssueRun(requests, commit) =>
        if !HasNumber(files, cfg) then os
        else
          var first := files[cfg.serial].n;
          var b := CertifyAll(Batch(rows, first), ValidNames(rows, unique), unique, requests);
          if b.None? || b.value.next <= first || !commit then os
          else Commit(os, oracle, cfg, b.value.rows, unique, first, b.value.next, b.value.rows[|rows|..])
      case ActionRun(action) =>
        var changed := Apply(asn1, rows, unique, action);
        if changed.None? || (action.ExpireCertificates? && changed.value == rows) then os
        else SaveAndRotate(os, oracle, cfg, changed.value, unique)
  }

  // ---------------------------------------------------------------- the same, step by step

  lemma CertifyStep(b: Batch, taken: set<string>, unique: bool, requests: seq<Request>, i: nat)
    requires i < |requests|
    ensures CertifyAll(b, taken, unique, requests[i..])
         == var one := CertifyOne(b, taken, requests[i]);
            if one.None? then None
            else CertifyAll(one.value, TakenAfter(b, taken, unique, requests[i]), unique, requests[i + 1..])
  {
    assert requests[i..][0] == requests[i] && requests[i..][1..] == requests[i + 1..];
  }

  method CertifyRequest(db: Database, next: nat, request: Request) returns (next': nat, ok: bool)
    requires db.Valid()
    modifies db
    ensures db.Valid()
    ensures var r := CertifyOne(Batch(old(db.rows), next), old(db.byName).Keys, request);
            ok == r.Some? && (ok ==> r.value == Batch(db.rows, next'))
    ensures ok ==> db.byName.Keys == TakenAfter(Batch(old(db.rows), next), old(db.byName).Keys, db.unique, request)
  {
    next', ok := next, true;
    match request {
      case Aborts => ok := false;
      case Declined =>
      case Accepted(subject, expiry) =>
        ok := db.Issue(Certificate(next, subject, expiry));
        next' := next + 1;
    }
  }

  /** Certifies request after request against the live database; an error ends the run. */
  method CertifyRequests(db: Database, first: nat, requests: seq<Request>) returns (next: nat, ok: bool)
    requires db.Valid()
    modifies db
    ensures db.Valid()
    ensures var r := CertifyAll(Batch(old(db.rows), first), old(db.byName).Keys, db.unique, requests);
            ok == r.Some? && (ok ==> r.value == Batch(db.rows, next))
  {
    next, ok := first, true;
    var i := 0;
    assert requests[0..] == requests;
    while i < |requests|
      invariant i <= |requests| && ok && db.Valid()
      invariant CertifyAll(Batch(old(db.rows), first), old(db.byName).Keys, db.unique, requests)
             == CertifyAll(Batch(db.rows, next), db.byName.Keys, db.unique, requests[i..])
    {
      CertifyStep(Batch(db.rows, next), db.byName.Keys, db.unique, requests, i);
      next, ok := CertifyRequest(db, next, requests[i]);
      if !ok {
        return;
      }
      i := i + 1;
    }
  }

  lemma {:induction false} FailureSticks(os: Os, oracle: Oracle, paths: seq<string>, certs: seq<Row>, i: nat, k: nat)
    requires i <= k <= |certs| == |paths| && !WriteCertificates(os, oracle, paths, certs, i).1
    ensures WriteCertificates(os, oracle, paths, certs, k) == WriteCertificates(os, oracle, paths, certs, i)
  {
    if i < k {
      FailureSticks(os, oracle, paths, certs, i, k - 1);
    }
  }

  ghost predicate Distinct(paths: seq<string>) {
    forall i, j :: 0 <= i < j < |paths| ==> paths[i] != paths[j]
  }

  /** A file that no certificate is written to stays as it is. */
  lemma {:induction false} CertificatesElsewhere(os: Os, oracle: Oracle, paths: seq<string>, certs: seq<Row>, k: nat, x: string)
    requires k <= |certs| == |paths| && forall i :: 0 <= i < |paths| ==> paths[i] != x
    ensures Same(WriteCertificates(os, oracle, paths, certs, k).0.files, os.files, x)
  {
    if k > 0 {
      CertificatesElsewhere(os, oracle, paths, certs, k - 1, x);
      CreateTouches(WriteCertificates(os, oracle, paths, certs, k - 1).0, oracle, paths[k - 1], Pem(certs[k - 1]));
    }
  }

  /** Opening and writing one file take two calls. */
  lemma CreateWrites(os: Os, oracle: Oracle, f: string, c: Content)
    ensures var (os', ok) := Create(os, oracle, f, c);
            && ok == oracle(os.clock).Done? && os'.clock == os.clock + (if ok then 2 else 1)
            && (ok && oracle(os.clock + 1).Done? ==> Stores(os'.files, f, c))
  {
  }

  /** All certificates are opened for writing exactly when no such call fails, and each one whose write is done is in its own file. */
  lemma {:induction false} CertificatesHold(os: Os, oracle: Oracle, paths: seq<string>, certs: seq<Row>, k: nat)
    requires k <= |certs| == |paths| && Distinct(paths)
    ensures var (os', ok) := WriteCertificates(os, oracle, paths, certs, k);
            && (ok <==> forall i :: 0 <= i < k ==> oracle(os.clock + 2 * i).Done?)
            && (ok ==> os'.clock == os.clock + 2 * k)
            && (ok ==> forall i :: 0 <= i < k && oracle(os.clock + 2 * i + 1).Done? ==> Stores(os'.files, paths[i], Pem(certs[i])))
  {
    if k > 0 {
      var (n, (os1, ok1)) := (k - 1, WriteCertificates(os, oracle, paths, certs, k - 1));
      CertificatesHold(os, oracle, paths, certs, n);
      if ok1 {
        CreateWrites(os1, oracle, paths[n], Pem(certs[n]));
        CreateTouches(os1, oracle, paths[n], Pem(certs[n]));
        var (os', ok) := WriteCertificates(os, oracle, paths, certs, k);
        forall i | 0 <= i < k && oracle(os.clock + 2 * i + 1).Done?
          ensures ok ==> Stores(os'.files, paths[i], Pem(certs[i]))
        {
          if i < n {
            assert Same(os'.files, os1.files, paths[i]);
          }
        }
      }
    }
  }

  /** Writes file after file; only failing to open one ends the run. */
  method WriteEachFile(disk: Disk, paths: seq<string>, certs: seq<Row>) returns (ok: bool)
    requires |paths| == |certs|
    modifies disk
    ensures (disk.View(), ok) == WriteCertificates(old(disk.View()), disk.oracle, paths, certs, |certs|)
  {
    ok := true;
    for i := 0 to |certs|
      invariant (disk.View(), ok) == WriteCertificates(old(disk.View()), disk.oracle, paths, certs, i)
      invariant ok
    {
      ok := disk.CreateFile(paths[i], Pem(certs[i]));
      if !ok {
        FailureSticks(old(disk.View()), disk.oracle, paths, certs, i + 1, |certs|);
        return;
      }
    }
  }

  /** Writes each certificate into the file of its number. */
  method WriteCertificateFiles(disk: Disk, paths: seq<string>, certs: seq<Row>) returns (ok: bool)
    requires |paths| == |certs| && Distinct(paths)
    modifies disk
    ensures (disk.View(), ok) == WriteCertificates(old(disk.View()), disk.oracle, paths, certs, |certs|)
    ensures ok <==> forall i :: 0 <= i < |certs| ==> disk.oracle(old(disk.clock) + 2 * i).Done?
    ensures ok ==> forall i :: 0 <= i < |certs| && disk.oracle(old(disk.clock) + 2 * i + 1).Done? ==> Stores(disk.files, paths[i], Pem(certs[i]))
  {
    CertificatesHold(disk.View(), disk.oracle, paths, certs, |certs|);
    ok := WriteEachFile(disk, paths, certs);
  }

  /** The paths of consecutive numbers, where different numbers have different paths. */
  lemma NumberedApart(paths: seq<string>, from: nat, path: nat -> string)
    requires forall i :: 0 <= i < |paths| ==> paths[i] == path(from + i)
    requires forall m: nat, n: nat :: m != n ==> path(m) != path(n)
    ensures Distinct(paths)
  {
    forall i, j | 0 <= i < j < |paths|
      ensures paths[i] != paths[j]
    {
      assert path(from + i) != path(from + j);
    }
  }

  lemma CertFilesDistinct(cfg: Config, from: nat, count: nat)
    ensures Distinct(cfg.CertFiles(from, count))
  {
    forall m: nat, n: nat | m != n
      ensures cfg.CertFile(m) != cfg.CertFile(n)
    {
      CertFilesDiffer(cfg, m, n);
    }
    NumberedApart(cfg.CertFiles(from, count), from, cfg.CertFile);
  }

  /** Each row is in the file of its number. */
  ghost predicate FilesHold(files: Files, path: nat -> string, from: nat, certs: seq<Row>) {
    var n := |certs| - 1;
    certs == [] || (FilesHold(files, path, from, certs[..n]) && Stores(files, path(from + n), Pem(certs[n])))
  }

  lemma {:induction false} FileOf(files: Files, path: nat -> string, from: nat, certs: seq<Row>, i: nat)
    requires FilesHold(files, path, from, certs) && i < |certs|
    ensures Stores(files, path(from + i), Pem(certs[i]))
  {
    if i < |certs| - 1 {
      FileOf(files, path, from, certs[..|certs| - 1], i);
    }
  }

  lemma {:induction false} PathsHold(files: Files, path: nat -> string, from: nat, paths: seq<string>, certs: seq<Row>, k: nat)
    requires k <= |certs| == |paths| && forall i :: 0 <= i < |paths| ==> paths[i] == path(from + i)
    requires forall i :: 0 <= i < k ==> Stores(files, paths[i], Pem(certs[i]))
    ensures FilesHold(files, path, from, certs[..k])
  {
    if k > 0 {
      PathsHold(files, path, from, paths, certs, k - 1);
      assert certs[..k][..k - 1] == certs[..k - 1];
      assert paths[k - 1] == path(from + (k - 1));
    }
  }

  lemma {:induction false} FilesStay(f: Files, f': Files, path: nat -> string, from: nat, certs: seq<Row>)
    requires FilesHold(f, path, from, certs) && forall n: nat :: Same(f', f, path(n))
    ensures FilesHold(f', path, from, certs)
  {
    if certs != [] {
      FilesStay(f, f', path, from, certs[..|certs| - 1]);
      assert Same(f', f, path(from + |certs| - 1));
    }
  }

  /** Each certificate is in the file of its number. */
  ghost predicate CertificatesIn(files: Files, cfg: Config, from: nat, certs: seq<Row>) {
    FilesHold(files, cfg.CertFile, from, certs)
  }

  lemma CertificateOf(files: Files, cfg: Config, from: nat, certs: seq<Row>, i: nat)
    requires CertificatesIn(files, cfg, from, certs) && i < |certs|
    ensures Stores(files, cfg.CertFile(from + i), Pem(certs[i]))
  {
    FileOf(files, cfg.CertFile, from, certs, i);
  }

  lemma CertificatesStay(f: Files, f': Files, cfg: Config, from: nat, certs: seq<Row>)
    requires CertificatesIn(f, cfg, from, certs) && forall x :: x !in cfg.SerialNames() + cfg.DbNames() ==> Same(f', f, x)
    requires cfg.Separate()
    ensures CertificatesIn(f', cfg, from, certs)
  {
    forall n: nat
      ensures Same(f', f, cfg.CertFile(n))
    {
      CertFileStays(f, f', cfg, n);
    }
    FilesStay(f, f', cfg.CertFile, from, certs);
  }

  lemma CertFileStays(f: Files, f': Files, cfg: Config, n: nat)
    requires cfg.Separate() && forall x :: x !in cfg.SerialNames() + cfg.DbNames() ==> Same(f', f, x)
    ensures Same(f', f, cfg.CertFile(n))
  {
  }

  /**
    What a completed commit leaves: the next number, the new rows and the
    attributes under their names, each certificate in the file of its number, and
    what was there before as old copies.
   */
  ghost predicate Committed(files: Files, before: Files, cfg: Config, rows: seq<Row>, unique: bool, from: nat, next: nat, certs: seq<Row>) {
    && Stores(files, cfg.serial, Number(next)) && Stores(files, cfg.db, Index(rows)) && Stores(files, Attr(cfg.db), Attributes(unique))
    && CertificatesIn(files, cfg, from, certs)
    && KeptAsOld(files, before, cfg.serial) && KeptAsOld(files, before, cfg.db) && KeptAsOld(files, before, Attr(cfg.db))
  }

  ghost predicate KeptAsOld(files: Files, before: Files, f: string) {
    f in before ==> Stores(files, Old(f), before[f])
  }

  /** Everything to be swapped in is written, and the certificates are in place. */
  ghost predicate Written(files: Files, before: Files, cfg: Config, rows: seq<Row>, unique: bool, from: nat, next: nat, certs: seq<Row>) {
    && Stores(files, New(cfg.serial), Number(next)) && Stores(files, New(cfg.db), Index(rows)) && Stores(files, New(Attr(cfg.db)), Attributes(unique))
    && CertificatesIn(files, cfg, from, certs)
    && Same(files, before, cfg.serial) && Same(files, before, cfg.db) && Same(files, before, Attr(cfg.db))
  }

  lemma NewFilesSaved(os: Os, oracle: Oracle, cfg: Config, rows: seq<Row>, unique: bool, from: nat, next: nat)
    requires cfg.Separate() && NamesFit(cfg) && rows != [] && NeverFails(oracle)
    ensures var (os1, ok1) := SaveSerial(os, oracle, cfg.serial, next);
            var (os2, ok2) := SaveIndex(os1, oracle, cfg.db, rows, unique);
            ok1 && ok2 && Written(os2.files, os.files, cfg, rows, unique, from, next, [])
  {
    NamesDiffer(cfg.serial);
    NamesDiffer(cfg.db);
    var os1 := SaveSerial(os, oracle, cfg.serial, next).0;
    SaveIndexTouches(os1, oracle, cfg.db, rows, unique);
  }

  lemma PreparedFiles(os: Os, oracle: Oracle, cfg: Config, rows: seq<Row>, unique: bool, from: nat, next: nat, certs: seq<Row>)
    requires cfg.Separate() && NamesFit(cfg) && rows != [] && NeverFails(oracle)
    ensures var (os', ok) := Prepare(os, oracle, cfg, rows, unique, from, next, certs);
            ok && Written(os'.files, os.files, cfg, rows, unique, from, next, certs)
  {
    NewFilesSaved(os, oracle, cfg, rows, unique, from, next);
    var os2 := SaveIndex(SaveSerial(os, oracle, cfg.serial, next).0, oracle, cfg.db, rows, unique).0;
    var paths := cfg.CertFiles(from, |certs|);
    CertFilesDistinct(cfg, from, |certs|);
    CertificatesHold(os2, oracle, paths, certs, |certs|);
    var files := WriteCertificates(os2, oracle, paths, certs, |certs|).0.files;
    forall x | x in cfg.SerialNames() + cfg.DbNames()
      ensures Same(files, os2.files, x)
    {
      CertificatesElsewhere(os2, oracle, paths, certs, |certs|, x);
    }
    PathsHold(files, cfg.CertFile, from, paths, certs, |certs|);
    assert certs[..|certs|] == certs;
  }

  /** Swapping the serial file and then the index brings the new files into place and leaves the certificates alone. */
  lemma SwapsCommit(f: Files, before: Files, cfg: Config, rows: seq<Row>, unique: bool, from: nat, next: nat, certs: seq<Row>)
    requires cfg.Separate() && Written(f, before, cfg, rows, unique, from, next, certs)
    ensures New(cfg.db) in SwappedSerial(f, cfg.serial) && New(Attr(cfg.db)) in SwappedSerial(f, cfg.serial)
    ensures Committed(Swapped(SwappedSerial(f, cfg.serial), cfg.db), before, cfg, rows, unique, from, next, certs)
  {
    var f1 := SwappedSerial(f, cfg.serial);
    NamesDiffer(cfg.serial);
    NamesDiffer(cfg.db);
    assert forall x :: x !in cfg.SerialNames() ==> Same(f1, f, x);
    var f2 := Swapped(f1, cfg.db);
    assert forall x :: x !in cfg.DbNames() ==> Same(f2, f1, x);
    CertificatesStay(f, f2, cfg, from, certs);
  }

  /** When no call fails, a commit completes. */
  lemma CommitCompletes(os: Os, oracle: Oracle, cfg: Config, rows: seq<Row>, unique: bool, from: nat, next: nat, certs: seq<Row>)
    requires cfg.Separate() && NamesFit(cfg) && rows != [] && NeverFails(oracle)
    ensures Committed(Commit(os, oracle, cfg, rows, unique, from, next, certs).files, os.files, cfg, rows, unique, from, next, certs)
  {
    PreparedFiles(os, oracle, cfg, rows, unique, from, next, certs);
    var os1 := Prepare(os, oracle, cfg, rows, unique, from, next, certs).0;
    SerialSwapped(os1, oracle, cfg.serial);
    SwapsCommit(os1.files, os.files, cfg, rows, unique, from, next, certs);
    RotationSucceeds(RotateSerial(os1, oracle, cfg.serial).0, oracle, cfg.db);
  }

  /** The commit sequence of an issuing run, call by call. */
  method CommitBatch(disk: Disk, cfg: Config, rows: seq<Row>, unique: bool, from: nat, next: nat, certs: seq<Row>)
    modifies disk
    ensures disk.View() == Commit(old(disk.View()), disk.oracle, cfg, rows, unique, from, next, certs)
    ensures cfg.Separate() && cfg.db in old(disk.files) && old(disk.View()) == Os(old(disk.files), 0, []) ==>
              KeptSince(disk.View(), 0, cfg.db, old(disk.files)[cfg.db])
    ensures cfg.Separate() && NamesFit(cfg) && rows != [] && NeverFails(disk.oracle) ==>
              Committed(disk.files, old(disk.files), cfg, rows, unique, from, next, certs)
  {
    if cfg.Separate() && NamesFit(cfg) && rows != [] && NeverFails(disk.oracle) {
      CommitCompletes(disk.View(), disk.oracle, cfg, rows, unique, from, next, certs);
    }
    if cfg.Separate() && cfg.db in disk.files {
      CommitKeepsIndex(disk.files, disk.oracle, cfg, rows, unique, from, next, certs);
    }
    var ok := disk.SaveSerialFile(cfg.serial, next);
    if !ok {
      return;
    }
    ok := disk.SaveIndexFiles(cfg.db, rows, unique);
    if !ok {
      return;
    }
    CertFilesDistinct(cfg, from, |certs|);
    ok := WriteCertificateFiles(disk, cfg.CertFiles(from, |certs|), certs);
    if !ok {
      return;
    }
    ok := disk.RotateSerialFile(cfg.serial);
    if !ok {
      return;
    }
    ok := disk.RotateIndexFiles(cfg.db);
  }

  // ---------------------------------------------------------------- serials below the number

  /** The row's serial, of either sign and in any case, denotes a number below `n`. */
  ghost predicate RowBelow(r: Row, n: nat) {
    IsSerial(r.serial) && SerialValue(r.serial) < n
  }

  ghost predicate Below(rows: seq<Row>, n: nat) {
    forall i :: 0 <= i < |rows| ==> RowBelow(rows[i], n)
  }

  /** Whenever both files are there, every serial in the index is below the number in the serial file. */
  ghost predicate Safe(files: Files, cfg: Config) {
    HasNumber(files, cfg) && cfg.db in files && files[cfg.db].Index? ==> Below(files[cfg.db].rows, files[cfg.serial].n)
  }

  /** With serials below the number, the next certificate can only clash by name, and its serial is new. */
  lemma NextSerialIsNew(rows: seq<Row>, n: nat)
    requires Below(rows, n)
    ensures FindKey(rows, StripZeros(SerialText(n))) < 0
  {
    SerialTextDenotes(n);
    var f := FindKey(rows, StripZeros(SerialText(n)));
    if f >= 0 {
      assert RowBelow(rows[f], n);
      KeyMatches(rows[f].serial, SerialText(n));
    }
  }

  lemma InsertKeepsBelow(rows: seq<Row>, taken: set<string>, c: Certificate, n: nat)
    requires Below(rows, n) && c.serial == n && Insert(rows, taken, c).Some?
    ensures Below(Insert(rows, taken, c).value, n + 1)
  {
    SerialTextDenotes(n);
    var rows' := Insert(rows, taken, c).value;
    forall i | 0 <= i < |rows'|
      ensures RowBelow(rows'[i], n + 1)
    {
      if i < |rows| {
        assert RowBelow(rows[i], n);
      }
    }
  }

  lemma {:induction false} CertifyKeepsBelow(b: Batch, taken: set<string>, unique: bool, requests: seq<Request>)
    requires Below(b.rows, b.next)
    ensures var r := CertifyAll(b, taken, unique, requests);
            r.Some? ==> r.value.next >= b.next && Below(r.value.rows, r.value.next)
    decreases |requests|
  {
    if requests != [] {
      var one := CertifyOne(b, taken, requests[0]);
      if one.Some? {
        if requests[0].Accepted? {
          InsertKeepsBelow(b.rows, taken, Certificate(b.next, requests[0].subject, requests[0].expiry), b.next);
        }
        CertifyKeepsBelow(one.value, TakenAfter(b, taken, unique, requests[0]), unique, requests[1..]);
      }
    }
  }

  // ---------------------------------------------------------------- what a batch issues

  /** The requests that were accepted, in order. */
  function Acceptances(requests: seq<Request>): (r: seq<Request>)
    ensures forall i :: 0 <= i < |r| ==> r[i].Accepted?
  {
    if requests == [] then []
    else (if requests[0].Accepted? then [requests[0]] else []) + Acceptances(requests[1..])
  }

  /** The name under which a certificate is entered: its subject, or its serial if that is empty. */
  function NameIn(n: nat, request: Request): string
    requires request.Accepted?
  {
    if request.subject == "" then SerialText(n) else request.subject
  }

  function NamesIn(n: nat, accepted: seq<Request>): (r: seq<string>)
    requires forall i :: 0 <= i < |accepted| ==> accepted[i].Accepted?
    ensures |r| == |accepted|
    decreases |accepted|
  {
    if accepted == [] then [] else [NameIn(n, accepted[0])] + NamesIn(n + 1, accepted[1..])
  }

  /** The row of a certificate with serial `n`. */
  function RowFor(n: nat, request: Request): Row
    requires request.Accepted?
  {
    Row("V", request.expiry, "", SerialText(n), "unknown", NameIn(n, request))
  }

  function RowsFor(n: nat, accepted: seq<Request>): (r: seq<Row>)
    requires forall i :: 0 <= i < |accepted| ==> accepted[i].Accepted?
    ensures |r| == |accepted|
    decreases |accepted|
  {
    if accepted == [] then [] else [RowFor(n, accepted[0])] + RowsFor(n + 1, accepted[1..])
  }

  /** One accepted request against rows below the number: only its name can be in the way. */
  lemma CertifiesOne(b: Batch, taken: set<string>, request: Request)
    requires Below(b.rows, b.next) && request.Accepted?
    ensures CertifyOne(b, taken, request) ==
            if NameIn(b.next, request) in taken then None else Some(Batch(b.rows + [RowFor(b.next, request)], b.next + 1))
  {
    var c := Certificate(b.next, request.subject, request.expiry);
    InsertMeans(b.rows, taken, c);
    NextSerialIsNew(b.rows, b.next);
  }

  /** Names that are free: not taken, and different from each other. */
  ghost predicate Free(names: seq<string>, taken: set<string>) {
    && (forall i :: 0 <= i < |names| ==> names[i] !in taken)
    && forall i, j :: 0 <= i < j < |names| ==> names[i] != names[j]
  }

  lemma FreeFront(name: string, names: seq<string>, taken: set<string>)
    ensures Free([name] + names, taken) <==> name !in taken && Free(names, taken + {name})
  {
    var (all, taken') := ([name] + names, taken + {name});
    if Free(all, taken) {
      FreeTail(name, names, taken);
    }
    if name !in taken && Free(names, taken') {
      forall i | 0 <= i < |all|
        ensures all[i] !in taken && (0 < i ==> all[i] != name)
      {
        if i > 0 {
          assert all[i] == names[i - 1] && names[i - 1] !in taken';
        }
      }
      forall i, j | 0 <= i < j < |all|
        ensures all[i] != all[j]
      {
        if i > 0 {
          assert all[i] == names[i - 1] && all[j] == names[j - 1];
        }
      }
    }
  }

  lemma FreeTail(name: string, names: seq<string>, taken: set<string>)
    requires Free([name] + names, taken)
    ensures name !in taken && Free(names, taken + {name})
  {
    var all := [name] + names;
    assert all[0] == name;
    forall i | 0 <= i < |names|
      ensures names[i] !in taken + {name}
    {
      assert all[i + 1] == names[i] && all[0] != all[i + 1];
    }
    forall i, j | 0 <= i < j < |names|
      ensures names[i] != names[j]
    {
      assert all[i + 1] != all[j + 1];
    }
  }

  /**
    A batch is certified exactly when no request aborts and, if names must be
    unique, the new ones are free. Each accepted request then has the next row,
    with the next serial.
   */
  ghost predicate IssuedAs(b: Batch, taken: set<string>, unique: bool, requests: seq<Request>, r: Option<Batch>) {
    var accepted := Acceptances(requests);
    && (r.Some? <==> (forall i :: 0 <= i < |requests| ==> !requests[i].Aborts?) && (unique ==> Free(NamesIn(b.next, accepted), taken)))
    && (r.Some? ==> r.value == Batch(b.rows + RowsFor(b.next, accepted), b.next + |accepted|))
  }

  lemma IssuedMore(b: Batch, taken: set<string>, unique: bool, requests: seq<Request>, r: Option<Batch>)
    requires requests != [] && requests[0].Accepted? && (unique || taken == {})
    requires var (name, row) := (NameIn(b.next, requests[0]), RowFor(b.next, requests[0]));
             if name in taken then r == None
             else IssuedAs(Batch(b.rows + [row], b.next + 1), if unique then taken + {name} else taken, unique, requests[1..], r)
    ensures IssuedAs(b, taken, unique, requests, r)
  {
    var (first, rest) := (requests[0], requests[1..]);
    var accepted := Acceptances(rest);
    assert Acceptances(requests) == [first] + accepted && Acceptances(requests)[1..] == accepted;
    FreeFront(NameIn(b.next, first), NamesIn(b.next + 1, accepted), taken);
    assert forall i :: 0 < i < |requests| ==> requests[i] == rest[i - 1];
    Associate(b.rows, [RowFor(b.next, first)], RowsFor(b.next + 1, accepted));
  }

  lemma IssuedSame(b: Batch, taken: set<string>, unique: bool, requests: seq<Request>, r: Option<Batch>)
    requires requests != [] && !requests[0].Accepted?
    requires if requests[0].Aborts? then r == None else IssuedAs(b, taken, unique, requests[1..], r)
    ensures IssuedAs(b, taken, unique, requests, r)
  {
    assert Acceptances(requests) == Acceptances(requests[1..]);
    assert forall i :: 0 < i < |requests| ==> requests[i] == requests[1..][i - 1];
  }

  /** So it is for rows with serials below the number. */
  lemma {:induction false} BatchIssues(b: Batch, taken: set<string>, unique: bool, requests: seq<Request>)
    requires Below(b.rows, b.next) && (unique || taken == {})
    ensures IssuedAs(b, taken, unique, requests, CertifyAll(b, taken, unique, requests))
    decreases |requests|
  {
    var r := CertifyAll(b, taken, unique, requests);
    if requests == [] {
      assert b.rows + [] == b.rows;
    } else if requests[0].Accepted? {
      CertifiesOne(b, taken, requests[0]);
      var one := CertifyOne(b, taken, requests[0]);
      if one.Some? {
        InsertKeepsBelow(b.rows, taken, Certificate(b.next, requests[0].subject, requests[0].expiry), b.next);
        BatchIssues(one.value, TakenAfter(b, taken, unique, requests[0]), unique, requests[1..]);
      }
      IssuedMore(b, taken, unique, requests, r);
    } else {
      if requests[0].Declined? {
        BatchIssues(b, taken, unique, requests[1..]);
      }
      IssuedSame(b, taken, unique, requests, r);
    }
  }

  // ---------------------------------------------------------------- what the calls leave alone

  ghost predicate Frozen(f: Files, f0: Files, names: set<string>) {
    forall x :: x in names ==> Same(f, f0, x)
  }

  /** No call made so far has touched any of the names. */
  ghost predicate AllFrozen(os: Os, f0: Files, names: set<string>) {
    Frozen(os.files, f0, names) && forall t :: 0 <= t < |os.trail| ==> Frozen(os.trail[t], f0, names)
  }

  lemma CreateFreezes(os: Os, oracle: Oracle, f: string, c: Content, f0: Files, names: set<string>)
    requires AllFrozen(os, f0, names) && f !in names
    ensures AllFrozen(Create(os, oracle, f, c).0, f0, names)
  {
    var os1 := Open(os, oracle, f).0;
    assert AllFrozen(os1, f0, names);
    assert AllFrozen(Write(os1, oracle, f, c).0, f0, names);
  }

  lemma SaveIndexFreezes(os: Os, oracle: Oracle, db: string, rows: seq<Row>, unique: bool, f0: Files, names: set<string>)
    requires AllFrozen(os, f0, names) && New(db) !in names && New(Attr(db)) !in names
    ensures AllFrozen(SaveIndex(os, oracle, db, rows, unique).0, f0, names)
  {
    var os1 := Open(os, oracle, New(db)).0;
    assert AllFrozen(os1, f0, names);
    var os2 := Write(os1, oracle, New(db), Index(rows)).0;
    assert AllFrozen(os2, f0, names);
    CreateFreezes(os2, oracle, New(Attr(db)), Attributes(unique), f0, names);
  }

  lemma {:induction false} CertificatesFreeze(os: Os, oracle: Oracle, paths: seq<string>, certs: seq<Row>, k: nat, f0: Files, names: set<string>)
    requires k <= |certs| == |paths| && AllFrozen(os, f0, names)
    requires forall i :: 0 <= i < |paths| ==> paths[i] !in names
    ensures AllFrozen(WriteCertificates(os, oracle, paths, certs, k).0, f0, names)
  {
    if k > 0 {
      CertificatesFreeze(os, oracle, paths, certs, k - 1, f0, names);
      var os1 := WriteCertificates(os, oracle, paths, certs, k - 1).0;
      CreateFreezes(os1, oracle, paths[k - 1], Pem(certs[k - 1]), f0, names);
    }
  }

  // ---------------------------------------------------------------- the two rotations

  /** The index, when present, is one of the two given. */
  ghost predicate DbIs(f: Files, cfg: Config, a: Content, b: Content) {
    cfg.db in f ==> f[cfg.db] == a || f[cfg.db] == b
  }

  ghost predicate Swapping(f: Files, f0: Files, cfg: Config, a: Content, b: Content) {
    Same(f, f0, cfg.serial) && DbIs(f, cfg, a, b)
  }

  ghost predicate AllSwapping(os: Os, from: nat, f0: Files, cfg: Config, a: Content, b: Content) {
    forall t :: from <= t < |os.trail| ==> Swapping(os.trail[t], f0, cfg, a, b)
  }

  /** Mid-rotation: the old copy is `a`, and what could be moved to the index name is `a` or `b`. */
  ghost predicate MidSwap(os: Os, from: nat, f0: Files, cfg: Config, a: Content, b: Content) {
    && AllSwapping(os, from, f0, cfg, a, b) && Swapping(os.files, f0, cfg, a, b)
    && Old(cfg.db) in os.files && os.files[Old(cfg.db)] == a
    && (New(cfg.db) in os.files ==> os.files[New(cfg.db)] == a || os.files[New(cfg.db)] == b)
  }

  lemma RenameMidSwap(os: Os, oracle: Oracle, x: string, y: string, from: nat, f0: Files, cfg: Config, a: Content, b: Content)
    requires MidSwap(os, from, f0, cfg, a, b) && from <= |os.trail|
    requires x != cfg.serial && y != cfg.serial && x != Old(cfg.db) && y != Old(cfg.db)
    requires y == cfg.db ==> x == New(cfg.db)
    requires y == New(cfg.db) ==> x == cfg.db
    ensures MidSwap(Rename(os, oracle, x, y).0, from, f0, cfg, a, b)
  {
  }

  lemma UndoSwapping(os: Os, oracle: Oracle, from: nat, f0: Files, cfg: Config, a: Content, b: Content)
    requires MidSwap(os, from, f0, cfg, a, b) && from <= |os.trail| && cfg.Separate()
    ensures AllSwapping(UndoDb(os, oracle, cfg.db), from, f0, cfg, a, b)
  {
    NamesDiffer(cfg.db);
    RenameMidSwap(os, oracle, cfg.db, New(cfg.db), from, f0, cfg, a, b);
  }

  lemma RenameExtends(base: seq<Files>, os: Os, oracle: Oracle, a: string, b: string)
    requires base <= os.trail
    ensures base <= Rename(os, oracle, a, b).0.trail
  {
  }

  lemma UndoExtends(base: seq<Files>, os: Os, oracle: Oracle, db: string)
    requires base <= os.trail
    ensures base <= UndoDb(os, oracle, db).trail
  {
    RenameExtends(base, os, oracle, db, New(db));
    RenameExtends(base, Rename(os, oracle, db, New(db)).0, oracle, Old(db), db);
  }

  lemma RotateIndexExtends(os: Os, oracle: Oracle, db: string)
    ensures os.trail <= RotateIndex(os, oracle, db).0.trail
  {
    var (base, attr) := (os.trail, Attr(db));
    RenameExtends(base, os, oracle, db, Old(db));
    var os1 := Rename(os, oracle, db, Old(db)).0;
    RenameExtends(base, os1, oracle, New(db), db);
    var os2 := Rename(os1, oracle, New(db), db).0;
    RenameExtends(base, os2, oracle, Old(db), db);
    RenameExtends(base, os2, oracle, attr, Old(attr));
    var os3 := Rename(os2, oracle, attr, Old(attr)).0;
    UndoExtends(base, os3, oracle, db);
    RenameExtends(base, os3, oracle, New(attr), attr);
    var os4 := Rename(os3, oracle, New(attr), attr).0;
    RenameExtends(base, os4, oracle, Old(attr), attr);
    UndoExtends(base, Rename(os4, oracle, Old(attr), attr).0, oracle, db);
  }

  lemma RotateIndexStates(os: Os, oracle: Oracle, cfg: Config, a: Content, b: Content)
    requires cfg.Separate() && cfg.db in os.files && os.files[cfg.db] == a
    requires New(cfg.db) in os.files && os.files[New(cfg.db)] == b
    ensures AllSwapping(RotateIndex(os, oracle, cfg.db).0, |os.trail|, os.files, cfg, a, b)
  {
    var (db, f0, from) := (cfg.db, os.files, |os.trail|);
    NamesDiffer(db);
    var (os1, e1) := Rename(os, oracle, db, Old(db));
    if e1.Ok? {
      assert MidSwap(os1, from, f0, cfg, a, b);
      RenameMidSwap(os1, oracle, New(db), db, from, f0, cfg, a, b);
      var (os2, e2) := Rename(os1, oracle, New(db), db);
      if e2.Ok? {
        RenameMidSwap(os2, oracle, Attr(db), Old(Attr(db)), from, f0, cfg, a, b);
        var (os3, e3) := Rename(os2, oracle, Attr(db), Old(Attr(db)));
        if e3.Failed? {
          UndoSwapping(os3, oracle, from, f0, cfg, a, b);
        } else {
          RenameMidSwap(os3, oracle, New(Attr(db)), Attr(db), from, f0, cfg, a, b);
          var (os4, e4) := Rename(os3, oracle, New(Attr(db)), Attr(db));
          if !e4.Ok? {
            RenameMidSwap(os4, oracle, Old(Attr(db)), Attr(db), from, f0, cfg, a, b);
            UndoSwapping(Rename(os4, oracle, Old(Attr(db)), Attr(db)).0, oracle, from, f0, cfg, a, b);
          }
        }
      }
    }
  }

  /** Before the serial is swapped: the number, when present, and the index are those the run started from. */
  ghost predicate Early(f: Files, f0: Files, cfg: Config) {
    Same(f, f0, cfg.db) && (cfg.serial in f ==> Same(f, f0, cfg.serial))
  }

  /** After it: the next number, if it was written at all, and the index found or the rows that were saved. */
  ghost predicate Late(f: Files, f0: Files, cfg: Config, next: nat, rows: seq<Row>, oracle: Oracle) {
    && (cfg.serial in f ==> f[cfg.serial] == Number(next) || f[cfg.serial] == Torn)
    && (cfg.db in f ==> Same(f, f0, cfg.db) || SavedAs(f[cfg.db], rows, oracle))
  }

  /** A trail that is early up to some call and late from there on. */
  ghost predicate Shaped(trail: seq<Files>, f0: Files, cfg: Config, next: nat, rows: seq<Row>, oracle: Oracle, m: nat) {
    && (forall t :: 0 <= t < |trail| && t < m ==> Early(trail[t], f0, cfg))
    && (forall t :: m <= t < |trail| ==> Late(trail[t], f0, cfg, next, rows, oracle))
  }

  ghost predicate NoShortWrites(oracle: Oracle) {
    forall t :: !oracle(t).Short?
  }

  lemma PrepareFreezes(os: Os, oracle: Oracle, cfg: Config, rows: seq<Row>, unique: bool, from: nat, next: nat, certs: seq<Row>,
                       f0: Files, names: set<string>)
    requires AllFrozen(os, f0, names)
    requires New(cfg.serial) !in names && New(cfg.db) !in names && New(Attr(cfg.db)) !in names
    requires forall n: nat :: from <= n ==> cfg.CertFile(n) !in names
    ensures AllFrozen(Prepare(os, oracle, cfg, rows, unique, from, next, certs).0, f0, names)
  {
    CreateFreezes(os, oracle, New(cfg.serial), Number(next), f0, names);
    var os1 := SaveSerial(os, oracle, cfg.serial, next).0;
    SaveIndexFreezes(os1, oracle, cfg.db, rows, unique, f0, names);
    var os2 := SaveIndex(os1, oracle, cfg.db, rows, unique).0;
    CertificatesFreeze(os2, oracle, cfg.CertFiles(from, |certs|), certs, |certs|, f0, names);
  }

  lemma CommitIsShaped(f0: Files, oracle: Oracle, cfg: Config, rows: seq<Row>, unique: bool, from: nat, next: nat, certs: seq<Row>) returns (m: nat)
    requires cfg.Separate() && NoShortWrites(oracle)
    requires cfg.serial in f0 && cfg.db in f0
    ensures m >= |Prepare(Os(f0, 0, []), oracle, cfg, rows, unique, from, next, certs).0.trail|
    ensures Shaped(Commit(Os(f0, 0, []), oracle, cfg, rows, unique, from, next, certs).trail, f0, cfg, next, rows, oracle, m)
  {
    var (os, names) := (Os(f0, 0, []), {cfg.serial, cfg.db});
    NamesDiffer(cfg.serial);
    NamesDiffer(cfg.db);
    PrepareFreezes(os, oracle, cfg, rows, unique, from, next, certs, f0, names);
    var (os1, ok) := Prepare(os, oracle, cfg, rows, unique, from, next, certs);
    if ok {
      NewFilesWritten(f0, oracle, cfg, rows, unique, from, next, certs);
      m := RotateBothIsShaped(os1, oracle, cfg, f0, next, rows, unique);
    } else {
      m := |os1.trail|;
      forall t | 0 <= t < m
        ensures Early(os1.trail[t], f0, cfg)
      {
        assert Frozen(os1.trail[t], f0, names);
        assert Same(os1.trail[t], f0, cfg.serial) && Same(os1.trail[t], f0, cfg.db);
      }
    }
  }

  lemma RotateBothIsShaped(os: Os, oracle: Oracle, cfg: Config, f0: Files, next: nat, rows: seq<Row>, unique: bool) returns (m: nat)
    requires cfg.Separate() && cfg.serial in f0 && cfg.db in f0 && AllFrozen(os, f0, {cfg.serial, cfg.db})
    requires NewHolds(os.files, cfg, next, rows, unique, oracle)
    ensures m >= |os.trail| && Shaped(RotateBoth(os, oracle, cfg).trail, f0, cfg, next, rows, oracle, m)
  {
    assert Same(os.files, f0, cfg.serial) && Same(os.files, f0, cfg.db);
    RotateSerialStates(os, oracle, cfg, f0, next);
    var (os1, ok) := RotateSerial(os, oracle, cfg.serial);
    assert forall t :: 0 <= t < |os.trail| ==> os1.trail[t] == os.trail[t];
    forall t | 0 <= t < |os.trail|
      ensures Early(os1.trail[t], f0, cfg)
    {
      assert Frozen(os.trail[t], f0, {cfg.serial, cfg.db});
      assert Same(os.trail[t], f0, cfg.serial) && Same(os.trail[t], f0, cfg.db);
    }
    if !ok {
      m := |os1.trail|;
    } else {
      m := |os.trail| + 1;
      var written := os.files[New(cfg.db)];
      RotateIndexStates(os1, oracle, cfg, f0[cfg.db], written);
      RotateIndexExtends(os1, oracle, cfg.db);
      var os2 := RotateIndex(os1, oracle, cfg.db).0;
      forall t | 0 <= t < |os2.trail|
        ensures if t < m then Early(os2.trail[t], f0, cfg) else Late(os2.trail[t], f0, cfg, next, rows, oracle)
      {
        if t < |os1.trail| {
          assert os2.trail[t] == os1.trail[t];
        } else {
          assert Swapping(os2.trail[t], os1.files, cfg, f0[cfg.db], written);
        }
      }
    }
  }

  /** Rotating the serial touches no other file. */
  lemma RotateSerialKeeps(os: Os, oracle: Oracle, cfg: Config, x: string)
    requires x !in cfg.SerialNames()
    ensures KeptSame(RotateSerial(os, oracle, cfg.serial).0, os.trail, os.files, x)
  {
    var (ser, base) := (cfg.serial, os.trail);
    RenameKeepsSame(os, oracle, ser, Old(ser), base, os.files, x);
    var os1 := Rename(os, oracle, ser, Old(ser)).0;
    RenameKeepsSame(os1, oracle, New(ser), ser, base, os.files, x);
    RenameKeepsSame(Rename(os1, oracle, New(ser), ser).0, oracle, Old(ser), ser, base, os.files, x);
  }

  /** Since the trail `base` no call has touched `x`. */
  ghost predicate KeptSame(os: Os, base: seq<Files>, f0: Files, x: string) {
    base <= os.trail && Same(os.files, f0, x) && forall t :: |base| <= t < |os.trail| ==> Same(os.trail[t], f0, x)
  }

  lemma RenameKeepsSame(os: Os, oracle: Oracle, a: string, b: string, base: seq<Files>, f0: Files, x: string)
    requires KeptSame(os, base, f0, x) && x != a && x != b
    ensures KeptSame(Rename(os, oracle, a, b).0, base, f0, x)
  {
  }

  /** Throughout a commit the index it started from is on disk, under its name or as the old copy. */
  lemma CommitKeepsIndex(f0: Files, oracle: Oracle, cfg: Config, rows: seq<Row>, unique: bool, from: nat, next: nat, certs: seq<Row>)
    requires cfg.Separate() && cfg.db in f0
    ensures KeptSince(Commit(Os(f0, 0, []), oracle, cfg, rows, unique, from, next, certs), 0, cfg.db, f0[cfg.db])
  {
    NamesDiffer(cfg.db);
    PrepareFreezes(Os(f0, 0, []), oracle, cfg, rows, unique, from, next, certs, f0, {cfg.db});
    var (os1, ok) := Prepare(Os(f0, 0, []), oracle, cfg, rows, unique, from, next, certs);
    forall t | 0 <= t < |os1.trail|
      ensures Same(os1.trail[t], f0, cfg.db)
    {
      assert Frozen(os1.trail[t], f0, {cfg.db});
    }
    assert Same(os1.files, f0, cfg.db);
    RotateSerialKeeps(os1, oracle, cfg, cfg.db);
    var os2 := RotateSerial(os1, oracle, cfg.serial).0;
    IndexNeverLost(os2, oracle, cfg.db);
    RotateIndexExtends(os2, oracle, cfg.db);
    RestKept(os1.trail, os2.trail, RotateIndex(os2, oracle, cfg.db).0, f0, cfg.db);
  }

  lemma RestKept(first: seq<Files>, second: seq<Files>, os: Os, f0: Files, db: string)
    requires db in f0 && first <= second <= os.trail && KeptSince(os, |second|, db, f0[db])
    requires forall t :: 0 <= t < |first| ==> Same(first[t], f0, db)
    requires forall t :: |first| <= t < |second| ==> Same(second[t], f0, db)
    ensures KeptSince(os, 0, db, f0[db])
    ensures forall t :: 0 <= t < |second| ==> Same(second[t], f0, db)
  {
    forall t | 0 <= t < |os.trail|
      ensures Kept(os.trail[t], db, f0[db])
    {
      if t < |second| {
        assert os.trail[t] == second[t];
        assert t < |first| ==> second[t] == first[t];
      }
    }
    assert forall t :: 0 <= t < |first| ==> second[t] == first[t];
  }

  /** The new files hold what was to be written, as far as it was not lost in closing. */
  ghost predicate NewHolds(files: Files, cfg: Config, next: nat, rows: seq<Row>, unique: bool, oracle: Oracle) {
    New(cfg.serial) in files && files[New(cfg.serial)] in {Number(next), Torn} && NewIndexHolds(files, cfg, rows, unique, oracle)
  }

  ghost predicate NewIndexHolds(files: Files, cfg: Config, rows: seq<Row>, unique: bool, oracle: Oracle) {
    && New(cfg.db) in files && SavedAs(files[New(cfg.db)], rows, oracle)
    && New(Attr(cfg.db)) in files && files[New(Attr(cfg.db))] in {Attributes(unique), Torn}
  }

  /** Once both saves succeed, the new files are there. */
  lemma NewFilesWritten(f0: Files, oracle: Oracle, cfg: Config, rows: seq<Row>, unique: bool, from: nat, next: nat, certs: seq<Row>)
    requires cfg.Separate() && NoShortWrites(oracle)
    requires Prepare(Os(f0, 0, []), oracle, cfg, rows, unique, from, next, certs).1
    ensures NewHolds(Prepare(Os(f0, 0, []), oracle, cfg, rows, unique, from, next, certs).0.files, cfg, next, rows, unique, oracle)
  {
    var os1 := SaveSerial(Os(f0, 0, []), oracle, cfg.serial, next).0;
    SavesWrite(Os(f0, 0, []), oracle, cfg, rows, unique, next);
    CertificatesKeepNew(SaveIndex(os1, oracle, cfg.db, rows, unique).0, oracle, cfg, rows, unique, from, next, certs);
  }

  lemma SaveIndexWrites(os: Os, oracle: Oracle, cfg: Config, rows: seq<Row>, unique: bool)
    requires NoShortWrites(oracle) && SaveIndex(os, oracle, cfg.db, rows, unique).1
    ensures NewIndexHolds(SaveIndex(os, oracle, cfg.db, rows, unique).0.files, cfg, rows, unique, oracle)
  {
    NamesDiffer(cfg.db);
  }

  lemma SavesWrite(os: Os, oracle: Oracle, cfg: Config, rows: seq<Row>, unique: bool, next: nat)
    requires cfg.Separate() && NoShortWrites(oracle)
    ensures var (os1, ok1) := SaveSerial(os, oracle, cfg.serial, next);
            var (os2, ok2) := SaveIndex(os1, oracle, cfg.db, rows, unique);
            ok1 && ok2 ==> NewHolds(os2.files, cfg, next, rows, unique, oracle)
  {
    var (os1, ok1) := SaveSerial(os, oracle, cfg.serial, next);
    var (os2, ok2) := SaveIndex(os1, oracle, cfg.db, rows, unique);
    if ok1 && ok2 {
      SaveIndexWrites(os1, oracle, cfg, rows, unique);
      assert Same(os2.files, os1.files, New(cfg.serial)) by {
        assert New(cfg.serial) !in cfg.DbNames();
        SaveIndexTouches(os1, oracle, cfg.db, rows, unique);
      }
    }
  }

  lemma CertificatesKeepNew(os: Os, oracle: Oracle, cfg: Config, rows: seq<Row>, unique: bool, from: nat, next: nat, certs: seq<Row>)
    requires cfg.Separate() && NewHolds(os.files, cfg, next, rows, unique, oracle)
    ensures NewHolds(WriteCertificates(os, oracle, cfg.CertFiles(from, |certs|), certs, |certs|).0.files, cfg, next, rows, unique, oracle)
  {
    var (bare, paths) := (Os(os.files, os.clock, []), cfg.CertFiles(from, |certs|));
    var names := {New(cfg.serial), New(cfg.db), New(Attr(cfg.db))};
    CertificatesFreeze(bare, oracle, paths, certs, |certs|, os.files, names);
    BareTrail(os, bare, oracle, paths, certs, |certs|);
    var files := WriteCertificates(bare, oracle, paths, certs, |certs|).0.files;
    assert forall x :: x in names ==> Same(files, os.files, x);
  }

  /** What is on disk after the certificates does not depend on the trail so far. */
  lemma {:induction false} BareTrail(os: Os, bare: Os, oracle: Oracle, paths: seq<string>, certs: seq<Row>, k: nat)
    requires k <= |certs| == |paths| && bare.files == os.files && bare.clock == os.clock
    ensures var (os1, ok1) := WriteCertificates(os, oracle, paths, certs, k);
            var (bare1, ok2) := WriteCertificates(bare, oracle, paths, certs, k);
            os1.files == bare1.files && os1.clock == bare1.clock && ok1 == ok2
  {
    if k > 0 {
      BareTrail(os, bare, oracle, paths, certs, k - 1);
      CreateBare(WriteCertificates(os, oracle, paths, certs, k - 1).0, WriteCertificates(bare, oracle, paths, certs, k - 1).0,
                 oracle, paths[k - 1], Pem(certs[k - 1]));
    }
  }

  lemma CreateBare(os: Os, bare: Os, oracle: Oracle, f: string, c: Content)
    requires bare.files == os.files && bare.clock == os.clock
    ensures var (os1, ok1) := Create(os, oracle, f, c);
            var (bare1, ok2) := Create(bare, oracle, f, c);
            os1.files == bare1.files && os1.clock == bare1.clock && ok1 == ok2
  {
  }

  lemma RotateSerialStates(os: Os, oracle: Oracle, cfg: Config, f0: Files, next: nat)
    requires cfg.Separate() && cfg.serial in os.files && Same(os.files, f0, cfg.serial) && Same(os.files, f0, cfg.db)
    requires New(cfg.serial) in os.files && os.files[New(cfg.serial)] in {Number(next), Torn}
    ensures var (os', ok) := RotateSerial(os, oracle, cfg.serial);
            && os.trail <= os'.trail && |os'.trail| <= |os.trail| + 3
            && Same(os'.files, os.files, cfg.db) && Same(os'.files, os.files, New(cfg.db))
            && (!ok ==> forall t :: |os.trail| <= t < |os'.trail| ==> Early(os'.trail[t], f0, cfg))
            && (ok ==> && |os'.trail| == |os.trail| + 2
                       && Early(os'.trail[|os.trail|], f0, cfg)
                       && os'.trail[|os.trail| + 1] == os'.files
                       && cfg.serial in os'.files && os'.files[cfg.serial] in {Number(next), Torn})
  {
    NamesDiffer(cfg.serial);
  }
}
