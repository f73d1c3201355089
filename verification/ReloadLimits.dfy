/**
  When the index stops loading: exactly which runs, and which histories, can
  leave an index behind that is there and does not load.
 */
module ReloadLimits {

  import opened Options
  import opened SerialNumbers
  import opened RevocationInfo
  import opened CaDatabase
  import opened DatabaseInvariant
  import opened CommitProtocol
  import opened IssuingRuns
  import opened CaHistory
  import opened CommitLimits
  import opened IndexHistory
  import opened CaReloads

  /** However its calls end and wherever it is cut off, the run leaves an index that loads, if any. */
  ghost predicate AlwaysReloads(asn1: Asn1, files: Files, cfg: Config, run: Run) {
    forall oracle: Oracle, stop: nat :: NoShortWrites(oracle) ==>
      Reloads(asn1, LeftBehind(asn1, files, cfg, Attempt(run, oracle, stop)), cfg)
  }

  /** Attributes that agree with the configuration, or valid names that are unique, by force or by chance, before and after. */
  ghost predicate Reloadable(files: Files, cfg: Config, rows: seq<Row>, rows': seq<Row>) {
    Agrees(files, cfg) || Unique(files, cfg) || (ValidNamesUnique(rows) && ValidNamesUnique(rows'))
  }

  // ---------------------------------------------------------------- undisturbed up to the rotation

  /** So many calls from the given one on are refused, all others are done. */
  function Refusing(first: nat, count: nat): Oracle {
    t => if first <= t < first + count then Refused else Done
  }

  /** How many calls a run makes before it rotates the index, if none fails. */
  ghost function CallsBefore(asn1: Asn1, files: Files, cfg: Config, run: Run): nat
    requires Saves(asn1, files, cfg, run).Some?
  {
    if run.ActionRun? then 4 else 8 + 2 * (BatchOf(files, cfg, run.requests).value.next - files[cfg.serial].n)
  }

  /** So many calls made, and recorded. */
  ghost predicate After(os: Os, calls: nat) {
    os.clock == calls && |os.trail| == calls
  }

  lemma SaveIndexDone(os: Os, oracle: Oracle, db: string, rows: seq<Row>, unique: bool, calls: nat)
    requires After(os, calls) && |db| + 9 < BSIZE && rows != [] && AllDone(oracle, calls, 4)
    ensures SaveIndex(os, oracle, db, rows, unique).1 && After(SaveIndex(os, oracle, db, rows, unique).0, calls + 4)
  {
    FourCalls(oracle, calls);
  }

  lemma {:induction false} CertificatesDone(os: Os, oracle: Oracle, paths: seq<string>, certs: seq<Row>, k: nat, calls: nat)
    requires k <= |certs| == |paths| && After(os, calls) && AllDone(oracle, calls, 2 * k)
    ensures var (os', ok) := WriteCertificates(os, oracle, paths, certs, k);
            ok && After(os', calls + 2 * k)
  {
    if k > 0 {
      CertificatesDone(os, oracle, paths, certs, k - 1, calls);
      var os1 := WriteCertificates(os, oracle, paths, certs, k - 1).0;
      assert oracle(calls + 2 * (k - 1)).Done? && oracle(calls + 2 * (k - 1) + 1).Done?;
    }
  }

  lemma CommitDone(files: Files, oracle: Oracle, cfg: Config, rows: seq<Row>, unique: bool, from: nat, next: nat, certs: seq<Row>)
    requires cfg.Separate() && NoShortWrites(oracle) && NamesFit(cfg) && rows != [] && AllDone(oracle, 0, 8 + 2 * |certs|)
    ensures var (os, rotates) := CommitTo(Os(files, 0, []), oracle, cfg, rows, unique, from, next, certs);
            rotates && After(os, 8 + 2 * |certs|)
  {
    var os1 := SaveSerial(Os(files, 0, []), oracle, cfg.serial, next).0;
    assert oracle(0).Done? && oracle(1).Done? && After(os1, 2);
    SaveIndexDone(os1, oracle, cfg.db, rows, unique, 2);
    var os2 := SaveIndex(os1, oracle, cfg.db, rows, unique).0;
    CertificatesDone(os2, oracle, cfg.CertFiles(from, |certs|), certs, |certs|, 6);
    NewFilesWritten(files, oracle, cfg, rows, unique, from, next, certs);
    var os3 := Prepare(Os(files, 0, []), oracle, cfg, rows, unique, from, next, certs).0;
    RotateSerialDone(os3, oracle, cfg, 6 + 2 * |certs|);
  }

  lemma RotateSerialDone(os: Os, oracle: Oracle, cfg: Config, calls: nat)
    requires After(os, calls) && NamesFit(cfg) && New(cfg.serial) in os.files && AllDone(oracle, calls, 2)
    ensures RotateSerial(os, oracle, cfg.serial).1 && After(RotateSerial(os, oracle, cfg.serial).0, calls + 2)
  {
    NamesDiffer(cfg.serial);
    assert oracle(calls).Done? && oracle(calls + 1).Done?;
  }

  /** About to rotate the index: its new rows are written, everything else is as found. */
  ghost predicate Ready(os: Os, files: Files, cfg: Config, rows': seq<Row>) {
    && |cfg.db| + 9 < BSIZE && |os.trail| == os.clock && Frozen(os.files, files, Deciding(cfg))
    && Stores(os.files, New(cfg.db), Index(rows')) && HasIndex(files, cfg)
  }

  lemma ApproachDone(asn1: Asn1, files: Files, oracle: Oracle, cfg: Config, run: Run)
    requires cfg.Separate() && NoShortWrites(oracle) && Saves(asn1, files, cfg, run).Some? && DatedRun(asn1, run)
    requires AllDone(oracle, 0, CallsBefore(asn1, files, cfg, run))
    ensures Approach(asn1, files, oracle, cfg, run).1
    ensures After(Approach(asn1, files, oracle, cfg, run).0, CallsBefore(asn1, files, cfg, run))
  {
    var (rows, unique, rows') := (files[cfg.db].rows, Unique(files, cfg), Saves(asn1, files, cfg, run).value);
    SavesSuccessor(asn1, files, cfg, run);
    match run
    case IssueRun(requests, commit) =>
      var b := BatchOf(files, cfg, requests).value;
      CommitDone(files, oracle, cfg, rows', unique, files[cfg.serial].n, b.next, rows'[|rows|..]);
    case ActionRun(action) =>
      SaveIndexDone(Os(files, 0, []), oracle, cfg.db, rows', unique, 0);
  }

  /** A run whose calls up to there are done comes to the rotation of the index. */
  lemma Arrives(asn1: Asn1, files: Files, cfg: Config, run: Run, first: nat, count: nat) returns (os: Os)
    requires cfg.Separate() && Saves(asn1, files, cfg, run).Some? && DatedRun(asn1, run)
    requires first >= CallsBefore(asn1, files, cfg, run)
    ensures os.clock == CallsBefore(asn1, files, cfg, run)
    ensures Ready(os, files, cfg, Saves(asn1, files, cfg, run).value)
    ensures Execute(asn1, files, Refusing(first, count), cfg, run) == RotateIndex(os, Refusing(first, count), cfg.db).0
  {
    Approaches(asn1, files, Refusing(first, count), cfg, run);
    ApproachDone(asn1, files, Refusing(first, count), cfg, run);
    os := Approach(asn1, files, Refusing(first, count), cfg, run).0;
  }

  // ---------------------------------------------------------------- states of the rotation

  /** The index in this state, and the same attributes as in the other. */
  ghost predicate SwappedOnly(f: Files, f0: Files, cfg: Config, c: Content) {
    Stores(f, cfg.db, c) && Same(f, f0, Attr(cfg.db)) && Same(f, f0, Old(Attr(cfg.db)))
  }

  /** The old index is kept, the new one is in place, and the last state recorded says so. */
  ghost predicate HalfWay(os: Os, from: nat, f0: Files, cfg: Config)
    requires cfg.db in f0 && New(cfg.db) in f0
  {
    && |os.trail| == from && from > 0 && os.trail[from - 1] == os.files && New(cfg.db) !in os.files
    && SwappedOnly(os.files, f0, cfg, f0[New(cfg.db)]) && Stores(os.files, Old(cfg.db), f0[cfg.db])
  }

  /** The disk after the two renames of the index. */
  function IndexHalf(os: Os, oracle: Oracle, db: string): Os {
    Rename(Rename(os, oracle, db, Old(db)).0, oracle, New(db), db).0
  }

  /** What follows: the attributes and, if that fails, the roll back. */
  function AttrHalf(os: Os, oracle: Oracle, db: string): Os {
    var (os3, e3) := Rename(os, oracle, Attr(db), Old(Attr(db)));
    if e3.Failed? then UndoDb(os3, oracle, db)
    else
      var (os4, e4) := Rename(os3, oracle, New(Attr(db)), Attr(db));
      if !e4.Ok? then UndoDb(Rename(os4, oracle, Old(Attr(db)), Attr(db)).0, oracle, db) else os4
  }

  lemma IndexHalfDone(os: Os, oracle: Oracle, cfg: Config)
    requires |cfg.db| + 9 < BSIZE && cfg.db in os.files && New(cfg.db) in os.files
    requires oracle(os.clock).Done? && oracle(os.clock + 1).Done?
    ensures HalfWay(IndexHalf(os, oracle, cfg.db), |os.trail| + 2, os.files, cfg)
    ensures IndexHalf(os, oracle, cfg.db).clock == os.clock + 2
    ensures RotateIndex(os, oracle, cfg.db).0 == AttrHalf(IndexHalf(os, oracle, cfg.db), oracle, cfg.db)
  {
    NamesDiffer(cfg.db);
  }

  /** After the third rename there are no attributes; if there were any, they are the old copy. */
  ghost predicate WithoutAttr(f: Files, f0: Files, cfg: Config)
    requires New(cfg.db) in f0
  {
    && Stores(f, cfg.db, f0[New(cfg.db)]) && Attr(cfg.db) !in f
    && (Attr(cfg.db) in f0 ==> Stores(f, Old(Attr(cfg.db)), f0[Attr(cfg.db)]))
    && (Attr(cfg.db) !in f0 ==> Same(f, f0, Old(Attr(cfg.db))))
  }

  /** A trail that goes on from there to a state without attributes. */
  ghost predicate MovesAttr(trail: seq<Files>, from: nat, f0: Files, cfg: Config)
    requires New(cfg.db) in f0
  {
    |trail| > from > 0 && SwappedOnly(trail[from - 1], f0, cfg, f0[New(cfg.db)]) && WithoutAttr(trail[from], f0, cfg)
  }

  lemma AttrMoved(os: Os, oracle: Oracle, from: nat, f0: Files, cfg: Config)
    requires cfg.db in f0 && New(cfg.db) in f0 && HalfWay(os, from, f0, cfg) && oracle(os.clock).Done?
    ensures MovesAttr(AttrHalf(os, oracle, cfg.db).trail, from, f0, cfg)
  {
    var attr := Attr(cfg.db);
    var os3 := Rename(os, oracle, attr, Old(attr)).0;
    MoveAttr(os, oracle, from, f0, cfg);
    assert os3.trail == os.trail + [os3.files];
    AttrHalfExtends(os, oracle, cfg.db);
  }

  lemma MoveAttr(os: Os, oracle: Oracle, from: nat, f0: Files, cfg: Config)
    requires cfg.db in f0 && New(cfg.db) in f0 && HalfWay(os, from, f0, cfg) && oracle(os.clock).Done?
    ensures WithoutAttr(Rename(os, oracle, Attr(cfg.db), Old(Attr(cfg.db))).0.files, f0, cfg)
  {
    NamesDiffer(cfg.db);
  }

  lemma AttrHalfExtends(os: Os, oracle: Oracle, db: string)
    ensures Rename(os, oracle, Attr(db), Old(Attr(db))).0.trail <= AttrHalf(os, oracle, db).trail
  {
    var attr := Attr(db);
    var os3 := Rename(os, oracle, attr, Old(attr)).0;
    UndoExtends(os3.trail, os3, oracle, db);
    var os4 := Rename(os3, oracle, New(attr), attr).0;
    RenameExtends(os3.trail, os4, oracle, Old(attr), attr);
    UndoExtends(os3.trail, Rename(os4, oracle, Old(attr), attr).0, oracle, db);
  }

  /** An old copy that comes back for attributes that are missing. */
  ghost predicate Stale(f: Files, f0: Files, cfg: Config) {
    Attr(cfg.db) !in f0 && Old(Attr(cfg.db)) in f0 ==> Stores(f, Attr(cfg.db), f0[Old(Attr(cfg.db))])
  }

  /** The roll back brings a stale copy of the attributes back, first with the new index and then with the old. */
  ghost predicate BringsBack(trail: seq<Files>, from: nat, f0: Files, cfg: Config)
    requires cfg.db in f0 && New(cfg.db) in f0
  {
    && |trail| == from + 5 && Stores(trail[from + 2], cfg.db, f0[New(cfg.db)]) && Stale(trail[from + 2], f0, cfg)
    && Stores(trail[from + 4], cfg.db, f0[cfg.db]) && Stale(trail[from + 4], f0, cfg)
  }

  lemma LastRefused(os: Os, oracle: Oracle, from: nat, f0: Files, cfg: Config)
    requires cfg.db in f0 && New(cfg.db) in f0 && HalfWay(os, from, f0, cfg)
    requires oracle(os.clock).Done? && !oracle(os.clock + 1).Done? && oracle(os.clock + 2).Done?
    requires oracle(os.clock + 3).Done? && oracle(os.clock + 4).Done?
    ensures BringsBack(AttrHalf(os, oracle, cfg.db).trail, from, f0, cfg)
  {
    var (db, attr) := (cfg.db, Attr(cfg.db));
    NamesDiffer(db);
    var os3 := Rename(os, oracle, attr, Old(attr)).0;
    assert WithoutAttr(os3.files, f0, cfg);
    var os4 := Rename(os3, oracle, New(attr), attr).0;
    var os5 := Rename(os4, oracle, Old(attr), attr).0;
    UndoneIndex(os5, oracle, f0, cfg);
  }

  lemma UndoneIndex(os: Os, oracle: Oracle, f0: Files, cfg: Config)
    requires cfg.db in f0 && New(cfg.db) in f0 && Stores(os.files, cfg.db, f0[New(cfg.db)]) && Stores(os.files, Old(cfg.db), f0[cfg.db])
    ensures var os' := UndoDb(os, oracle, cfg.db);
            && os'.trail == os.trail + [os'.trail[|os.trail|], os'.files]
            && (oracle(os.clock).Done? && oracle(os.clock + 1).Done? ==>
                  Stores(os'.files, cfg.db, f0[cfg.db]) && Same(os'.files, os.files, Attr(cfg.db)))
  {
    NamesDiffer(cfg.db);
  }

  /** The old index comes back and its attributes do not. */
  ghost predicate LosesAttr(trail: seq<Files>, from: nat, f0: Files, cfg: Config)
    requires cfg.db in f0
  {
    |trail| == from + 5 && Stores(trail[from + 4], cfg.db, f0[cfg.db]) && Attr(cfg.db) !in trail[from + 4]
  }

  lemma LastTwoRefused(os: Os, oracle: Oracle, from: nat, f0: Files, cfg: Config)
    requires cfg.db in f0 && New(cfg.db) in f0 && HalfWay(os, from, f0, cfg)
    requires oracle(os.clock).Done? && !oracle(os.clock + 1).Done? && !oracle(os.clock + 2).Done?
    requires oracle(os.clock + 3).Done? && oracle(os.clock + 4).Done?
    ensures LosesAttr(AttrHalf(os, oracle, cfg.db).trail, from, f0, cfg)
  {
    var (db, attr) := (cfg.db, Attr(cfg.db));
    NamesDiffer(db);
    var os3 := Rename(os, oracle, attr, Old(attr)).0;
    assert WithoutAttr(os3.files, f0, cfg);
    var os4 := Rename(os3, oracle, New(attr), attr).0;
    var os5 := Rename(os4, oracle, Old(attr), attr).0;
    UndoneIndex(os5, oracle, f0, cfg);
  }

  lemma OneRefused(os: Os, k: nat, f0: Files, cfg: Config)
    requires cfg.db in f0 && New(cfg.db) in f0 && HalfWay(os, k, f0, cfg) && os.clock == k
    ensures BringsBack(AttrHalf(os, Refusing(k + 1, 1), cfg.db).trail, k, f0, cfg)
  {
    LastRefused(os, Refusing(k + 1, 1), k, f0, cfg);
  }

  lemma TwoRefused(os: Os, k: nat, f0: Files, cfg: Config)
    requires cfg.db in f0 && New(cfg.db) in f0 && HalfWay(os, k, f0, cfg) && os.clock == k
    ensures LosesAttr(AttrHalf(os, Refusing(k + 1, 2), cfg.db).trail, k, f0, cfg)
  {
    LastTwoRefused(os, Refusing(k + 1, 2), k, f0, cfg);
  }

  // ---------------------------------------------------------------- what a run can leave behind

  lemma LeftAfter(asn1: Asn1, files: Files, cfg: Config, a: Attempt, trail: seq<Files>)
    requires trail == Execute(asn1, files, a.oracle, cfg, a.run).trail && 0 < a.stop <= |trail|
    ensures LeftBehind(asn1, files, cfg, a) == trail[a.stop - 1]
  {
    CutLast(files, trail, a.stop);
  }

  lemma CutLast(files: Files, trail: seq<Files>, stop: nat)
    requires 0 < stop <= |trail|
    ensures LastOf(files, Cut(trail, stop)) == trail[stop - 1]
  {
  }

  /** The disk that a run starts to rotate, with the new rows written and everything else as found. */
  ghost predicate Written(f0: Files, files: Files, cfg: Config, rows': seq<Row>) {
    Frozen(f0, files, Deciding(cfg)) && cfg.db in f0 && Stores(f0, New(cfg.db), Index(rows'))
  }

  /** The number of calls that a run makes until it is half way through rotating the index. */
  ghost predicate HalfCalls(asn1: Asn1, files: Files, cfg: Config, run: Run, k: nat) {
    cfg.Separate() && Saves(asn1, files, cfg, run).Some? && DatedRun(asn1, run) && k == CallsBefore(asn1, files, cfg, run) + 2
  }

  /** A run comes half way: the new index is in place, the attributes have not been moved. */
  lemma ComesHalfWay(asn1: Asn1, files: Files, cfg: Config, run: Run, k: nat, first: nat, count: nat) returns (os: Os, f0: Files)
    requires HalfCalls(asn1, files, cfg, run, k) && first >= k
    ensures Written(f0, files, cfg, Saves(asn1, files, cfg, run).value) && os.clock == k && HalfWay(os, k, f0, cfg)
    ensures Execute(asn1, files, Refusing(first, count), cfg, run).trail == AttrHalf(os, Refusing(first, count), cfg.db).trail
  {
    var os0 := Arrives(asn1, files, cfg, run, first, count);
    assert Same(os0.files, files, cfg.db);
    IndexHalfDone(os0, Refusing(first, count), cfg);
    os, f0 := IndexHalf(os0, Refusing(first, count), cfg.db), os0.files;
  }

  /** The attempt leaves this disk behind. */
  ghost predicate Leaves(asn1: Asn1, files: Files, cfg: Config, run: Run, a: Attempt, left: Files) {
    a.run == run && NoShortWrites(a.oracle) && left == LeftBehind(asn1, files, cfg, a)
  }

  lemma LeavesAt(asn1: Asn1, files: Files, cfg: Config, run: Run, first: nat, count: nat, stop: nat, trail: seq<Files>)
    requires trail == Execute(asn1, files, Refusing(first, count), cfg, run).trail && 0 < stop <= |trail|
    ensures Leaves(asn1, files, cfg, run, Attempt(run, Refusing(first, count), stop), trail[stop - 1])
  {
    LeftAfter(asn1, files, cfg, Attempt(run, Refusing(first, count), stop), trail);
  }

  /** Cut off in front of the third rename, an undisturbed run leaves the new index with the attributes found. */
  lemma LeavesSwapped(asn1: Asn1, files: Files, cfg: Config, run: Run) returns (a: Attempt, left: Files)
    requires cfg.Separate() && Saves(asn1, files, cfg, run).Some? && DatedRun(asn1, run)
    ensures Leaves(asn1, files, cfg, run, a, left)
    ensures SwappedOnly(left, files, cfg, Index(Saves(asn1, files, cfg, run).value))
  {
    var k := CallsBefore(asn1, files, cfg, run) + 2;
    var os, f0 := ComesHalfWay(asn1, files, cfg, run, k, k, 0);
    AttrMoved(os, Refusing(k, 0), k, f0, cfg);
    var trail := AttrHalf(os, Refusing(k, 0), cfg.db).trail;
    LeavesAt(asn1, files, cfg, run, k, 0, k, trail);
    a, left := Attempt(run, Refusing(k, 0), k), trail[k - 1];
    assert Same(f0, files, Attr(cfg.db)) && Same(f0, files, Old(Attr(cfg.db)));
  }

  /** Cut off behind it, the new index without attributes, and those found as the old copy. */
  lemma LeavesMoved(asn1: Asn1, files: Files, cfg: Config, run: Run) returns (a: Attempt, left: Files)
    requires cfg.Separate() && Saves(asn1, files, cfg, run).Some? && DatedRun(asn1, run)
    ensures Leaves(asn1, files, cfg, run, a, left)
    ensures Unpaired(left, cfg, Index(Saves(asn1, files, cfg, run).value))
    ensures Attr(cfg.db) in files ==> Stores(left, Old(Attr(cfg.db)), files[Attr(cfg.db)])
  {
    var k := CallsBefore(asn1, files, cfg, run) + 2;
    var os, f0 := ComesHalfWay(asn1, files, cfg, run, k, k, 0);
    AttrMoved(os, Refusing(k, 0), k, f0, cfg);
    var trail := AttrHalf(os, Refusing(k, 0), cfg.db).trail;
    LeavesAt(asn1, files, cfg, run, k, 0, k + 1, trail);
    a, left := Attempt(run, Refusing(k, 0), k + 1), trail[k];
    assert Same(f0, files, Attr(cfg.db));
  }

  /** An index together with attributes. */
  ghost predicate Paired(f: Files, cfg: Config, index: Content, attributes: Content) {
    Stores(f, cfg.db, index) && Stores(f, Attr(cfg.db), attributes)
  }

  lemma StalePairs(trail: seq<Files>, k: nat, f0: Files, files: Files, cfg: Config, rows': seq<Row>)
    requires Written(f0, files, cfg, rows') && BringsBack(trail, k, f0, cfg) && cfg.db in files
    requires Attr(cfg.db) !in files && Old(Attr(cfg.db)) in files
    ensures Paired(trail[k + 2], cfg, Index(rows'), files[Old(Attr(cfg.db))])
    ensures Paired(trail[k + 4], cfg, files[cfg.db], files[Old(Attr(cfg.db))])
  {
    assert Same(f0, files, cfg.db) && Same(f0, files, Attr(cfg.db)) && Same(f0, files, Old(Attr(cfg.db)));
  }

  /** Where there are no attributes but an old copy, a failed last rename makes that the attributes of the new index. */
  lemma LeavesStale(asn1: Asn1, files: Files, cfg: Config, run: Run) returns (a: Attempt, left: Files)
    requires cfg.Separate() && Saves(asn1, files, cfg, run).Some? && DatedRun(asn1, run)
    requires Attr(cfg.db) !in files && Old(Attr(cfg.db)) in files
    ensures Leaves(asn1, files, cfg, run, a, left)
    ensures Paired(left, cfg, Index(Saves(asn1, files, cfg, run).value), files[Old(Attr(cfg.db))])
  {
    var k := CallsBefore(asn1, files, cfg, run) + 2;
    var os, f0 := ComesHalfWay(asn1, files, cfg, run, k, k + 1, 1);
    OneRefused(os, k, f0, cfg);
    var trail := AttrHalf(os, Refusing(k + 1, 1), cfg.db).trail;
    StalePairs(trail, k, f0, files, cfg, Saves(asn1, files, cfg, run).value);
    LeavesAt(asn1, files, cfg, run, k + 1, 1, k + 3, trail);
    a, left := Attempt(run, Refusing(k + 1, 1), k + 3), trail[k + 2];
  }

  /** And in the end of the old one. */
  lemma LeavesStaleOld(asn1: Asn1, files: Files, cfg: Config, run: Run) returns (a: Attempt, left: Files)
    requires cfg.Separate() && Saves(asn1, files, cfg, run).Some? && DatedRun(asn1, run)
    requires Attr(cfg.db) !in files && Old(Attr(cfg.db)) in files
    ensures Leaves(asn1, files, cfg, run, a, left)
    ensures Paired(left, cfg, files[cfg.db], files[Old(Attr(cfg.db))])
  {
    var k := CallsBefore(asn1, files, cfg, run) + 2;
    var os, f0 := ComesHalfWay(asn1, files, cfg, run, k, k + 1, 1);
    OneRefused(os, k, f0, cfg);
    var trail := AttrHalf(os, Refusing(k + 1, 1), cfg.db).trail;
    StalePairs(trail, k, f0, files, cfg, Saves(asn1, files, cfg, run).value);
    LeavesAt(asn1, files, cfg, run, k + 1, 1, k + 5, trail);
    a, left := Attempt(run, Refusing(k + 1, 1), k + 5), trail[k + 4];
  }

  /** An index without attributes. */
  ghost predicate Unpaired(f: Files, cfg: Config, index: Content) {
    Stores(f, cfg.db, index) && Attr(cfg.db) !in f
  }

  lemma LostState(trail: seq<Files>, k: nat, f0: Files, files: Files, cfg: Config, rows': seq<Row>)
    requires Written(f0, files, cfg, rows') && LosesAttr(trail, k, f0, cfg) && cfg.db in files
    ensures Unpaired(trail[k + 4], cfg, files[cfg.db])
  {
    assert Same(f0, files, cfg.db);
  }

  /** When the last rename fails and its roll back too, the old index is left without attributes. */
  lemma LeavesOld(asn1: Asn1, files: Files, cfg: Config, run: Run) returns (a: Attempt, left: Files)
    requires cfg.Separate() && Saves(asn1, files, cfg, run).Some? && DatedRun(asn1, run)
    ensures Leaves(asn1, files, cfg, run, a, left)
    ensures Unpaired(left, cfg, files[cfg.db])
  {
    var k := CallsBefore(asn1, files, cfg, run) + 2;
    var os, f0 := ComesHalfWay(asn1, files, cfg, run, k, k + 1, 2);
    TwoRefused(os, k, f0, cfg);
    var trail := AttrHalf(os, Refusing(k + 1, 2), cfg.db).trail;
    LostState(trail, k, f0, files, cfg, Saves(asn1, files, cfg, run).value);
    LeavesAt(asn1, files, cfg, run, k + 1, 2, k + 5, trail);
    a, left := Attempt(run, Refusing(k + 1, 2), k + 5), trail[k + 4];
  }

  // ---------------------------------------------------------------- one run

  /** Rows with repeated valid names do not load where names must be unique. */
  lemma DoesNotReload(asn1: Asn1, f: Files, cfg: Config, rows: seq<Row>)
    requires Stores(f, cfg.db, Index(rows)) && !ValidNamesUnique(rows) && Unique(f, cfg)
    ensures !Reloads(asn1, f, cfg)
  {
  }

  lemma RunBreaks(asn1: Asn1, files: Files, cfg: Config, run: Run)
    requires cfg.Separate() && Saves(asn1, files, cfg, run).Some? && DatedRun(asn1, run)
    requires !Reloadable(files, cfg, files[cfg.db].rows, Saves(asn1, files, cfg, run).value)
    ensures !AlwaysReloads(asn1, files, cfg, run)
  {
    var (rows, rows') := (files[cfg.db].rows, Saves(asn1, files, cfg, run).value);
    var a, left;
    if !cfg.unique && ValidNamesUnique(rows') {
      a, left := LeavesStaleOld(asn1, files, cfg, run);
    } else if !cfg.unique {
      a, left := LeavesStale(asn1, files, cfg, run);
    } else if ValidNamesUnique(rows') {
      a, left := LeavesOld(asn1, files, cfg, run);
    } else {
      a, left := LeavesMoved(asn1, files, cfg, run);
    }
    DoesNotReload(asn1, left, cfg, if ValidNamesUnique(rows') then rows else rows');
    assert a == Attempt(run, a.oracle, a.stop);
  }

  lemma LeftReloads(asn1: Asn1, files: Files, cfg: Config, a: Attempt)
    requires Reloads(asn1, files, cfg)
    requires forall t :: 0 <= t < |Execute(asn1, files, a.oracle, cfg, a.run).trail| ==>
               Reloads(asn1, Execute(asn1, files, a.oracle, cfg, a.run).trail[t], cfg)
    ensures Reloads(asn1, LeftBehind(asn1, files, cfg, a), cfg)
  {
  }

  /**
    A run always leaves an index that loads, however its calls end and wherever
    it is cut off, if and only if the index it finds loads and the run saves
    nothing, or the attributes agree with the configuration, or the valid names
    are unique in the rows it finds and in those it saves.
   */
  lemma RunReloadsIff(asn1: Asn1, files: Files, cfg: Config, run: Run)
    requires cfg.Separate() && DatedRun(asn1, run)
    ensures AlwaysReloads(asn1, files, cfg, run) <==>
            && Reloads(asn1, files, cfg)
            && (Saves(asn1, files, cfg, run).Some? ==> Reloadable(files, cfg, files[cfg.db].rows, Saves(asn1, files, cfg, run).value))
  {
    var saved := Saves(asn1, files, cfg, run);
    assert LeftBehind(asn1, files, cfg, Attempt(run, Refusing(0, 0), 0)) == files;
    if saved.Some? && !Reloadable(files, cfg, files[cfg.db].rows, saved.value) {
      RunBreaks(asn1, files, cfg, run);
    } else if Reloads(asn1, files, cfg) {
      forall oracle: Oracle, stop: nat | NoShortWrites(oracle)
        ensures Reloads(asn1, LeftBehind(asn1, files, cfg, Attempt(run, oracle, stop)), cfg)
      {
        StatesReload(asn1, files, cfg, run, oracle);
        LeftReloads(asn1, files, cfg, Attempt(run, oracle, stop));
      }
    }
  }

  lemma StatesReload(asn1: Asn1, files: Files, cfg: Config, run: Run, oracle: Oracle)
    requires cfg.Separate() && DatedRun(asn1, run) && NoShortWrites(oracle) && Reloads(asn1, files, cfg)
    requires var saved := Saves(asn1, files, cfg, run);
             saved.Some? ==> Reloadable(files, cfg, files[cfg.db].rows, saved.value)
    ensures forall t :: 0 <= t < |Execute(asn1, files, oracle, cfg, run).trail| ==>
              Reloads(asn1, Execute(asn1, files, oracle, cfg, run).trail[t], cfg)
  {
    var saved := Saves(asn1, files, cfg, run);
    forall t | 0 <= t < |Execute(asn1, files, oracle, cfg, run).trail|
      ensures Reloads(asn1, Execute(asn1, files, oracle, cfg, run).trail[t], cfg)
    {
      if saved.None? {
        UnsavedFrozen(asn1, files, oracle, cfg, run);
        FrozenReloads(asn1, Execute(asn1, files, oracle, cfg, run).trail[t], files, cfg);
      } else if Agrees(files, cfg) {
        RunReloads(asn1, files, oracle, cfg, run, t);
      } else {
        SavesSuccessor(asn1, files, cfg, run);
        NamesReload(asn1, files, oracle, cfg, run, t);
      }
    }
  }

  // ---------------------------------------------------------------- all histories

  /** Some history without short writes passes through a state whose index is there and does not load. */
  ghost predicate Breaks(asn1: Asn1, files: Files, cfg: Config) {
    exists attempts :: DatedHistory(asn1, attempts) && !AllReload(asn1, History(asn1, files, cfg, attempts), cfg)
  }

  lemma BreaksLater(asn1: Asn1, files: Files, cfg: Config, a: Attempt)
    requires NoShortWrites(a.oracle) && DatedRun(asn1, a.run) && Breaks(asn1, LeftBehind(asn1, files, cfg, a), cfg)
    ensures Breaks(asn1, files, cfg)
  {
    var rest :| DatedHistory(asn1, rest) && !AllReload(asn1, History(asn1, LeftBehind(asn1, files, cfg, a), cfg, rest), cfg);
    BreaksIn(asn1, files, cfg, a, rest);
    DatedFirst(asn1, a, rest);
  }

  lemma BreaksIn(asn1: Asn1, files: Files, cfg: Config, a: Attempt, rest: seq<Attempt>)
    requires !AllReload(asn1, History(asn1, LeftBehind(asn1, files, cfg, a), cfg, rest), cfg)
    ensures !AllReload(asn1, History(asn1, files, cfg, [a] + rest), cfg)
  {
    HistoryEndsIn(asn1, files, cfg, a, rest);
    EndsBadly(asn1, History(asn1, files, cfg, [a] + rest), History(asn1, LeftBehind(asn1, files, cfg, a), cfg, rest), cfg);
  }

  lemma DatedFirst(asn1: Asn1, a: Attempt, rest: seq<Attempt>)
    requires NoShortWrites(a.oracle) && DatedRun(asn1, a.run) && DatedHistory(asn1, rest)
    ensures DatedHistory(asn1, [a] + rest)
  {
  }

  lemma EndsBadly(asn1: Asn1, all: seq<Files>, h: seq<Files>, cfg: Config)
    requires |h| <= |all| && all[|all| - |h|..] == h && !AllReload(asn1, h, cfg)
    ensures !AllReload(asn1, all, cfg)
  {
    var t :| 0 <= t < |h| && !Reloads(asn1, h[t], cfg);
    assert all[|all| - |h| + t] == h[t];
  }

  lemma HistoryEndsIn(asn1: Asn1, files: Files, cfg: Config, a: Attempt, rest: seq<Attempt>)
    ensures var (all, h) := (History(asn1, files, cfg, [a] + rest), History(asn1, LeftBehind(asn1, files, cfg, a), cfg, rest));
            |h| <= |all| && all[|all| - |h|..] == h
  {
    assert ([a] + rest)[1..] == rest;
  }

  lemma BreaksNow(asn1: Asn1, files: Files, cfg: Config)
    requires !Reloads(asn1, files, cfg)
    ensures Breaks(asn1, files, cfg)
  {
    assert DatedHistory(asn1, []) && History(asn1, files, cfg, [])[0] == files;
  }

  lemma {:induction false} SomeNumberAbove(rows: seq<Row>) returns (n: nat)
    requires forall i :: 0 <= i < |rows| ==> IsSerial(rows[i].serial)
    ensures Below(rows, n)
  {
    n := 0;
    if rows != [] {
      var last := rows[|rows| - 1];
      var m := SomeNumberAbove(rows[..|rows| - 1]);
      n := if SerialValue(last.serial) < m then m else SerialValue(last.serial) + 1;
      assert RowBelow(last, n);
      forall i | 0 <= i < |rows|
        ensures RowBelow(rows[i], n)
      {
        assert i < |rows| - 1 ==> RowBelow(rows[..|rows| - 1][i], m);
      }
    }
  }

  /** A name longer than all those in the rows. */
  function LongName(rows: seq<Row>): (name: string)
    ensures name != "" && forall i :: 0 <= i < |rows| ==> |rows[i].name| < |name|
  {
    if rows == [] then "n" else LongName(rows[1..]) + rows[0].name + "n"
  }

  /** What is added to the index for a certificate recorded as valid. */
  ghost predicate AddsValid(rows: seq<Row>, rows': seq<Row>, name: string) {
    |rows'| == |rows| + 1 && rows <= rows' && rows'[|rows|].Kind() == 'V' && rows'[|rows|].name == name
  }

  /** Recording a certificate as valid adds a row for any name that is not taken. */
  lemma Adding(asn1: Asn1, files: Files, cfg: Config, name: string, expiry: string, now: string) returns (run: Run)
    requires Loads(asn1, files, cfg) && |cfg.db| + 9 < BSIZE && asn1.isTime(expiry) && asn1.isUtc(now) && ',' !in now
    requires name != "" && name !in ValidNames(files[cfg.db].rows, Unique(files, cfg))
    ensures DatedRun(asn1, run) && Saves(asn1, files, cfg, run).Some?
    ensures AddsValid(files[cfg.db].rows, Saves(asn1, files, cfg, run).value, name)
  {
    var rows := files[cfg.db].rows;
    assert forall i :: 0 <= i < |rows| ==> RowOk(asn1, rows[i]);
    var n := SomeNumberAbove(rows);
    NextSerialIsNew(rows, n);
    run := ActionRun(RevokeCertificate(Certificate(n, name, expiry), StatusValid, "", now));
  }

  lemma RepeatedName(rows: seq<Row>, rows1: seq<Row>, rows2: seq<Row>, name: string)
    requires AddsValid(rows, rows1, name) && AddsValid(rows1, rows2, name)
    ensures !ValidNamesUnique(rows2)
  {
    assert rows2[|rows|] == rows1[|rows|];
  }

  /** Names need not be unique now, but may have to be later: adding the same name twice breaks. */
  lemma BreaksDirectly(asn1: Asn1, files: Files, cfg: Config, expiry: string, now: string)
    requires cfg.Separate() && |cfg.db| + 9 < BSIZE && asn1.isTime(expiry) && asn1.isUtc(now) && ',' !in now
    requires Loads(asn1, files, cfg) && !Agrees(files, cfg) && !Unique(files, cfg)
    ensures Breaks(asn1, files, cfg)
  {
    var run1 := Adding(asn1, files, cfg, "n", expiry, now);
    SavesSuccessor(asn1, files, cfg, run1);
    var a, left := LeavesSwapped(asn1, files, cfg, run1);
    var run2 := Adding(asn1, left, cfg, "n", expiry, now);
    RepeatedName(files[cfg.db].rows, left[cfg.db].rows, Saves(asn1, left, cfg, run2).value, "n");
    RunReloadsIff(asn1, left, cfg, run2);
    var oracle, stop :| NoShortWrites(oracle) && !Reloads(asn1, LeftBehind(asn1, left, cfg, Attempt(run2, oracle, stop)), cfg);
    BreaksNow(asn1, LeftBehind(asn1, left, cfg, Attempt(run2, oracle, stop)), cfg);
    BreaksLater(asn1, left, cfg, Attempt(run2, oracle, stop));
    BreaksLater(asn1, files, cfg, a);
  }

  /** Names must be unique now, but one interrupted run makes that end. */
  lemma BreaksIndirectly(asn1: Asn1, files: Files, cfg: Config, expiry: string, now: string)
    requires cfg.Separate() && |cfg.db| + 9 < BSIZE && asn1.isTime(expiry) && asn1.isUtc(now) && ',' !in now
    requires Loads(asn1, files, cfg) && !Agrees(files, cfg) && Unique(files, cfg)
    ensures Breaks(asn1, files, cfg)
  {
    var run := Adding(asn1, files, cfg, LongName(files[cfg.db].rows), expiry, now);
    SavesSuccessor(asn1, files, cfg, run);
    var a, left;
    if cfg.unique {
      a, left := LeavesStale(asn1, files, cfg, run);
    } else {
      a, left := LeavesMoved(asn1, files, cfg, run);
    }
    BreaksDirectly(asn1, left, cfg, expiry, now);
    BreaksLater(asn1, files, cfg, a);
  }

  /**
    In every state of every history an index that is there loads, if and only if
    there is none to begin with, or it loads and the attributes agree with the
    configuration, their old copy counting only while they are missing.
   */
  lemma EveryHistoryReloadsIff(asn1: Asn1, files: Files, cfg: Config, expiry: string, now: string)
    requires cfg.Separate() && |cfg.db| + 9 < BSIZE && asn1.isTime(expiry) && asn1.isUtc(now) && ',' !in now
    ensures (forall attempts :: DatedHistory(asn1, attempts) ==> AllReload(asn1, History(asn1, files, cfg, attempts), cfg)) <==>
            !HasIndex(files, cfg) || (Loads(asn1, files, cfg) && Agrees(files, cfg))
  {
    if HasIndex(files, cfg) && !Loads(asn1, files, cfg) {
      BreaksNow(asn1, files, cfg);
    } else if HasIndex(files, cfg) && !Agrees(files, cfg) {
      if Unique(files, cfg) {
        BreaksIndirectly(asn1, files, cfg, expiry, now);
      } else {
        BreaksDirectly(asn1, files, cfg, expiry, now);
      }
    } else {
      forall attempts | DatedHistory(asn1, attempts)
        ensures AllReload(asn1, History(asn1, files, cfg, attempts), cfg)
      {
        HistoryReloads(asn1, files, cfg, attempts);
      }
    }
  }

  lemma HistoryReloads(asn1: Asn1, files: Files, cfg: Config, attempts: seq<Attempt>)
    requires cfg.Separate() && DatedHistory(asn1, attempts)
    requires !HasIndex(files, cfg) || (Loads(asn1, files, cfg) && Agrees(files, cfg))
    ensures AllReload(asn1, History(asn1, files, cfg, attempts), cfg)
  {
    if HasIndex(files, cfg) {
      EveryHistoryReloads(asn1, files, cfg, attempts);
    } else {
      forall t | 0 <= t < |History(asn1, files, cfg, attempts)|
        ensures Reloads(asn1, History(asn1, files, cfg, attempts)[t], cfg)
      {
        StaysUnreadable(asn1, files, cfg, attempts, t);
      }
    }
  }
}
