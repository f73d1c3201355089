/**
  Saving the serial and index files and swapping them into place.

  The disk is a map from names to contents.  An oracle says how each system call
  ends, and the trail records the disk after every call, so that a statement
  about every state in the trail also covers a process that stops after any call.
  A rename whose source exists either takes effect or fails with an error that is
  not tolerated; one whose source is missing reports that, which is tolerated
  where the file need not exist.
 */
module CommitProtocol {

  import opened CaDatabase

  datatype Content =
    | Number(n: nat)
    | Index(rows: seq<Row>)
    | Attributes(unique: bool)
    | Pem(row: Row)
    | Torn

  type Files = map<string, Content>

  /**
    How a system call ends. A short write leaves some other content behind; data
    still buffered may also be lost when the file is closed, which is not noticed.
    Of an index that many rows are then kept.
   */
  datatype Outcome = Done | Refused | Short(left: Content) | Unflushed(kept: nat)

  type Oracle = nat -> Outcome

  datatype Errno = Ok | Missing | Failed

  /** The disk, the number of calls made so far, and the disk after each of them. */
  datatype Os = Os(files: Files, clock: nat, trail: seq<Files>)
  {
    function Step(files': Files): Os {
      Os(files', clock + 1, trail + [files'])
    }
  }

  const BSIZE: nat := 256

  function New(f: string): string { f + ".new" }
  function Old(f: string): string { f + ".old" }
  function Attr(f: string): string { f + ".attr" }

  // ---------------------------------------------------------------- calls

  function Rename(os: Os, oracle: Oracle, a: string, b: string): (Os, Errno) {
    if !oracle(os.clock).Done? then (os.Step(os.files), Failed)
    else if a !in os.files then (os.Step(os.files), Missing)
    else (os.Step((os.files - {a})[b := os.files[a]]), Ok)
  }

  /** Opening for writing truncates. */
  function Open(os: Os, oracle: Oracle, f: string): (Os, bool) {
    if !oracle(os.clock).Done? then (os.Step(os.files), false)
    else (os.Step(os.files[f := Torn]), true)
  }

  /** What is left when data was lost in closing: an index cut short reads as fewer rows. */
  function Remains(c: Content, kept: nat): Content {
    if c.Index? then Index(if kept < |c.rows| then c.rows[..kept] else c.rows) else Torn
  }

  /** What a write of the rows that is reported as done can leave behind. */
  ghost predicate SavedAs(c: Content, rows: seq<Row>, oracle: Oracle) {
    c == Index(rows) || exists t :: oracle(t).Unflushed? && c == Remains(Index(rows), oracle(t).kept)
  }

  /** Writing and closing; the flag says whether the write was reported as done. */
  function Write(os: Os, oracle: Oracle, f: string, c: Content): (Os, bool) {
    match oracle(os.clock)
    case Done => (os.Step(os.files[f := c]), true)
    case Refused => (os.Step(os.files[f := Torn]), false)
    case Short(left) => (os.Step(os.files[f := left]), false)
    case Unflushed(kept) => (os.Step(os.files[f := Remains(c, kept)]), true)
  }

  /** Opens a file and writes it without looking at the outcome of the write. */
  function Create(os: Os, oracle: Oracle, f: string, c: Content): (Os, bool) {
    var (os1, isOpen) := Open(os, oracle, f);
    if !isOpen then (os1, false) else (Write(os1, oracle, f, c).0, true)
  }

  // ---------------------------------------------------------------- save and rotate

  /** Writes the next serial number; the outcome of the write is not looked at. */
  function SaveSerial(os: Os, oracle: Oracle, file: string, n: nat): (Os, bool) {
    if |file| + 3 + 1 >= BSIZE then (os, false) else Create(os, oracle, New(file), Number(n))
  }

  function RotateSerial(os: Os, oracle: Oracle, file: string): (Os, bool) {
    if |file| + 3 + 1 >= BSIZE then (os, false)
    else
      var (os1, e1) := Rename(os, oracle, file, Old(file));
      if e1.Failed? then (os1, false)
      else
        var (os2, e2) := Rename(os1, oracle, New(file), file);
        if !e2.Ok? then (Rename(os2, oracle, Old(file), file).0, false)
        else (os2, true)
  }

  /** Writes rows and attributes; an empty database counts as a failed write. */
  function SaveIndex(os: Os, oracle: Oracle, db: string, rows: seq<Row>, unique: bool): (Os, bool) {
    if |db| + 3 + 6 >= BSIZE then (os, false)
    else
      var (os1, isOpen) := Open(os, oracle, New(db));
      if !isOpen then (os1, false)
      else
        var (os2, written) := Write(os1, oracle, New(db), Index(rows));
        if !written || rows == [] then (os2, false) else Create(os2, oracle, New(Attr(db)), Attributes(unique))
  }

  function RotateIndex(os: Os, oracle: Oracle, db: string): (Os, bool) {
    if |db| + 3 + 6 >= BSIZE then (os, false)
    else
      var (os1, e1) := Rename(os, oracle, db, Old(db));
      if e1.Failed? then (os1, false)
      else
        var (os2, e2) := Rename(os1, oracle, New(db), db);
        if !e2.Ok? then (Rename(os2, oracle, Old(db), db).0, false)
        else
          var (os3, e3) := Rename(os2, oracle, Attr(db), Old(Attr(db)));
          if e3.Failed? then (UndoDb(os3, oracle, db), false)
          else
            var (os4, e4) := Rename(os3, oracle, New(Attr(db)), Attr(db));
            if !e4.Ok? then (UndoDb(Rename(os4, oracle, Old(Attr(db)), Attr(db)).0, oracle, db), false)
            else (os4, true)
  }

  /** Puts the new database back under its name and the old one into place. */
  function UndoDb(os: Os, oracle: Oracle, db: string): Os {
    Rename(Rename(os, oracle, db, New(db)).0, oracle, Old(db), db).0
  }

  /** The process's view of the disk, changed call by call. */
  class Disk {
    var files: Files
    var clock: nat
    ghost var trail: seq<Files>
    const oracle: Oracle

    constructor (files: Files, oracle: Oracle)
      ensures View() == Os(files, 0, []) && this.oracle == oracle
    {
      this.files, clock, trail, this.oracle := files, 0, [], oracle;
    }

    ghost function View(): Os
      reads this
    {
      Os(files, clock, trail)
    }

    method RenameFile(a: string, b: string) returns (e: Errno)
      modifies this
      ensures (View(), e) == Rename(old(View()), oracle, a, b)
    {
      if !oracle(clock).Done? {
        e := Failed;
      } else if a !in files {
        e := Missing;
      } else {
        files := (files - {a})[b := files[a]];
        e := Ok;
      }
      clock := clock + 1;
      trail := trail + [files];
    }

    method OpenFile(f: string) returns (ok: bool)
      modifies this
      ensures (View(), ok) == Open(old(View()), oracle, f)
    {
      ok := oracle(clock).Done?;
      if ok {
        files := files[f := Torn];
      }
      clock := clock + 1;
      trail := trail + [files];
    }

    method WriteFile(f: string, c: Content) returns (ok: bool)
      modifies this
      ensures (View(), ok) == Write(old(View()), oracle, f, c)
    {
      match oracle(clock) {
        case Done => files, ok := files[f := c], true;
        case Refused => files, ok := files[f := Torn], false;
        case Short(left) => files, ok := files[f := left], false;
        case Unflushed(kept) => files, ok := files[f := Remains(c, kept)], true;
      }
      clock := clock + 1;
      trail := trail + [files];
    }

    method CreateFile(f: string, c: Content) returns (ok: bool)
      modifies this
      ensures (View(), ok) == Create(old(View()), oracle, f, c)
    {
      ok := OpenFile(f);
      if ok {
        var unchecked := WriteFile(f, c);
      }
    }

    method SaveSerialFile(file: string, n: nat) returns (ok: bool)
      modifies this
      ensures (View(), ok) == SaveSerial(old(View()), oracle, file, n)
      ensures forall x :: x != New(file) ==> Same(files, old(files), x)
      ensures ok ==> New(file) in files
    {
      if |file| + 3 + 1 >= BSIZE {
        return false;
      }
      ok := CreateFile(New(file), Number(n));
    }

    method SaveIndexFiles(db: string, rows: seq<Row>, unique: bool) returns (ok: bool)
      modifies this
      ensures (View(), ok) == SaveIndex(old(View()), oracle, db, rows, unique)
      ensures forall x :: x != New(db) && x != New(Attr(db)) ==> Same(files, old(files), x)
      ensures ok ==> New(db) in files && New(Attr(db)) in files
    {
      SaveIndexTouches(View(), oracle, db, rows, unique);
      if |db| + 3 + 6 >= BSIZE {
        return false;
      }
      ok := OpenFile(New(db));
      if !ok {
        return;
      }
      ok := WriteFile(New(db), Index(rows));
      if !ok || rows == [] {
        return false;
      }
      ok := CreateFile(New(Attr(db)), Attributes(unique));
    }

    method RotateSerialFile(file: string) returns (ok: bool)
      modifies this
      ensures (View(), ok) == RotateSerial(old(View()), oracle, file)
      ensures file in old(files) ==> KeptSince(View(), |old(trail)|, file, old(files)[file])
      ensures ok <==> |file| + 4 < BSIZE && New(file) in old(files) && AllDone(oracle, old(clock), 2)
      ensures ok ==> files == SwappedSerial(old(files), file)
    {
      SerialNeverLost(View(), oracle, file);
      SerialSwapped(View(), oracle, file);
      if |file| + 3 + 1 >= BSIZE {
        return false;
      }
      var e := RenameFile(file, Old(file));
      if e.Failed? {
        return false;
      }
      e := RenameFile(New(file), file);
      if !e.Ok? {
        e := RenameFile(Old(file), file);
        return false;
      }
      ok := true;
    }

    method RotateIndexFiles(db: string) returns (ok: bool)
      modifies this
      ensures (View(), ok) == RotateIndex(old(View()), oracle, db)
      ensures db in old(files) ==> KeptSince(View(), |old(trail)|, db, old(files)[db])
      ensures ok ==> New(db) in old(files) && New(Attr(db)) in old(files) && files == Swapped(old(files), db)
    {
      if db in files {
        IndexNeverLost(View(), oracle, db);
      }
      RotationSucceeds(View(), oracle, db);
      if |db| + 3 + 6 >= BSIZE {
        return false;
      }
      var attr := Attr(db);
      var e := RenameFile(db, Old(db));
      if e.Failed? {
        return false;
      }
      e := RenameFile(New(db), db);
      if !e.Ok? {
        e := RenameFile(Old(db), db);
        return false;
      }
      e := RenameFile(attr, Old(attr));
      if e.Failed? {
        e := RenameFile(db, New(db));
        e := RenameFile(Old(db), db);
        return false;
      }
      e := RenameFile(New(attr), attr);
      if !e.Ok? {
        e := RenameFile(Old(attr), attr);
        e := RenameFile(db, New(db));
        e := RenameFile(Old(db), db);
        return false;
      }
      ok := true;
    }
  }

  // ---------------------------------------------------------------- what rotating the index keeps

  lemma NamesDiffer(f: string)
    ensures f != New(f) && f != Old(f) && f != Attr(f) && New(f) != Old(f) && New(f) != Attr(f) && Old(f) != Attr(f)
    ensures New(Attr(f)) != Old(Attr(f))
    ensures {f, New(f), Old(f), Attr(f)} !! {New(Attr(f)), Old(Attr(f))}
  {
    var n := |f|;
    assert New(f)[n + 1] == 'n' && Old(f)[n + 1] == 'o';
    assert New(Attr(f))[n + 6] == 'n' && Old(Attr(f))[n + 6] == 'o';
  }

  /** Where the bytes of the database can be found. */
  ghost predicate Kept(files: Files, db: string, c: Content) {
    (db in files && files[db] == c) || (Old(db) in files && files[Old(db)] == c)
  }

  ghost predicate KeptSince(os: Os, from: nat, db: string, c: Content) {
    forall t :: from <= t < |os.trail| ==> Kept(os.trail[t], db, c)
  }

  /** The old copy holds the database, and no state since `from` lost it. */
  ghost predicate HeldAsOld(os: Os, from: nat, db: string, c: Content) {
    Old(db) in os.files && os.files[Old(db)] == c && KeptSince(os, from, db, c)
  }

  lemma RenameElsewhere(os: Os, oracle: Oracle, a: string, b: string, from: nat, db: string, c: Content)
    requires HeldAsOld(os, from, db, c) && a != Old(db) && b != Old(db)
    ensures HeldAsOld(Rename(os, oracle, a, b).0, from, db, c)
  {
  }

  lemma UndoKeeps(os: Os, oracle: Oracle, from: nat, db: string, c: Content)
    requires HeldAsOld(os, from, db, c)
    ensures KeptSince(UndoDb(os, oracle, db), from, db, c)
  {
    NamesDiffer(db);
    RenameElsewhere(os, oracle, db, New(db), from, db, c);
  }

  /** Saving the index touches only the two new files. */
  lemma SaveIndexTouches(os: Os, oracle: Oracle, db: string, rows: seq<Row>, unique: bool)
    ensures var (os', ok) := SaveIndex(os, oracle, db, rows, unique);
            && (forall x :: x != New(db) && x != New(Attr(db)) ==> Same(os'.files, os.files, x))
            && (ok ==> New(db) in os'.files && New(Attr(db)) in os'.files)
  {
    var os1 := Open(os, oracle, New(db)).0;
    var os2 := Write(os1, oracle, New(db), Index(rows)).0;
    assert forall x :: x != New(db) ==> Same(os2.files, os.files, x);
    CreateTouches(os2, oracle, New(Attr(db)), Attributes(unique));
  }

  lemma CreateTouches(os: Os, oracle: Oracle, f: string, c: Content)
    ensures var (os', ok) := Create(os, oracle, f, c);
            (forall x :: x != f ==> Same(os'.files, os.files, x)) && (ok ==> f in os'.files)
  {
  }

  /** The number that the serial file held is on disk after every call, under its name or as the old copy. */
  lemma SerialNeverLost(os: Os, oracle: Oracle, file: string)
    ensures file in os.files ==> KeptSince(RotateSerial(os, oracle, file).0, |os.trail|, file, os.files[file])
  {
    NamesDiffer(file);
  }

  /** The disk after the serial file is swapped: the new number in place, the previous one kept as old. */
  ghost function SwappedSerial(files: Files, file: string): Files
    requires New(file) in files
  {
    (if file in files then files[Old(file) := files[file]] else files)[file := files[New(file)]] - {New(file)}
  }

  /** The serial file is swapped exactly when its name fits, the new file exists and neither call fails. */
  lemma SerialSwapped(os: Os, oracle: Oracle, file: string)
    ensures var (os', ok) := RotateSerial(os, oracle, file);
            && (ok <==> |file| + 4 < BSIZE && New(file) in os.files && AllDone(oracle, os.clock, 2))
            && (ok ==> os'.files == SwappedSerial(os.files, file))
  {
    NamesDiffer(file);
    assert AllDone(oracle, os.clock, 2) <==> oracle(os.clock).Done? && oracle(os.clock + 1).Done?;
  }

  /**
    Otherwise it is left or put back: when the first call fails nothing changes;
    when the second fails, or there is no new file, and the third does not, only
    an earlier old copy is gone.
   */
  lemma SerialRolledBack(os: Os, oracle: Oracle, file: string)
    requires file in os.files && !RotateSerial(os, oracle, file).1
    ensures |file| + 4 >= BSIZE || !oracle(os.clock).Done? ==> RotateSerial(os, oracle, file).0.files == os.files
    ensures |file| + 4 < BSIZE && oracle(os.clock).Done? && oracle(os.clock + 2).Done? ==>
              RotateSerial(os, oracle, file).0.files == os.files - {Old(file)}
  {
    NamesDiffer(file);
    SerialSwapped(os, oracle, file);
    assert AllDone(oracle, os.clock, 2) <==> oracle(os.clock).Done? && oracle(os.clock + 1).Done?;
  }

  /** Whichever renames fail, the database is on disk after every call, under its name or as the old copy. */
  lemma IndexNeverLost(os: Os, oracle: Oracle, db: string)
    requires db in os.files
    ensures KeptSince(RotateIndex(os, oracle, db).0, |os.trail|, db, os.files[db])
  {
    NamesDiffer(db);
    var (from, c) := (|os.trail|, os.files[db]);
    var (os1, e1) := Rename(os, oracle, db, Old(db));
    if |db| + 9 < BSIZE && e1.Ok? {
      assert HeldAsOld(os1, from, db, c);
      RenameElsewhere(os1, oracle, New(db), db, from, db, c);
      var (os2, e2) := Rename(os1, oracle, New(db), db);
      if e2.Ok? {
        RenameElsewhere(os2, oracle, Attr(db), Old(Attr(db)), from, db, c);
        var (os3, e3) := Rename(os2, oracle, Attr(db), Old(Attr(db)));
        if e3.Failed? {
          UndoKeeps(os3, oracle, from, db, c);
        } else {
          RenameElsewhere(os3, oracle, New(Attr(db)), Attr(db), from, db, c);
          var (os4, e4) := Rename(os3, oracle, New(Attr(db)), Attr(db));
          if !e4.Ok? {
            RenameElsewhere(os4, oracle, Old(Attr(db)), Attr(db), from, db, c);
            UndoKeeps(Rename(os4, oracle, Old(Attr(db)), Attr(db)).0, oracle, from, db, c);
          }
        }
      }
    }
  }

  /** The disk after a completed rotation: both new files in place, the previous ones kept as old. */
  ghost function Swapped(files: Files, db: string): Files
    requires New(db) in files && New(Attr(db)) in files
  {
    var f1 := if db in files then files[Old(db) := files[db]] else files;
    var f2 := if Attr(db) in files then f1[Old(Attr(db)) := files[Attr(db)]] else f1;
    f2[db := files[New(db)]][Attr(db) := files[New(Attr(db))]] - {New(db), New(Attr(db))}
  }

  ghost predicate AllDone(oracle: Oracle, from: nat, count: nat) {
    forall t :: from <= t < from + count ==> oracle(t).Done?
  }

  lemma FourCalls(oracle: Oracle, clock: nat)
    ensures AllDone(oracle, clock, 4) <==>
            oracle(clock).Done? && oracle(clock + 1).Done? && oracle(clock + 2).Done? && oracle(clock + 3).Done?
  {
  }

  lemma FourRenames(os: Os, oracle: Oracle, db: string)
    requires |db| + 9 < BSIZE && New(db) in os.files && New(Attr(db)) in os.files && AllDone(oracle, os.clock, 4)
    ensures RotateIndex(os, oracle, db).1 && RotateIndex(os, oracle, db).0.files == Swapped(os.files, db)
  {
    NamesDiffer(db);
    FourCalls(oracle, os.clock);
  }

  lemma SuccessNeeds(os: Os, oracle: Oracle, db: string)
    requires RotateIndex(os, oracle, db).1
    ensures |db| + 9 < BSIZE && New(db) in os.files && New(Attr(db)) in os.files && AllDone(oracle, os.clock, 4)
  {
    NamesDiffer(db);
    FourCalls(oracle, os.clock);
  }

  /** Rotation succeeds exactly when the names fit, both new files exist and no call fails. */
  lemma RotationSucceeds(os: Os, oracle: Oracle, db: string)
    ensures RotateIndex(os, oracle, db).1 <==>
            |db| + 9 < BSIZE && New(db) in os.files && New(Attr(db)) in os.files && AllDone(oracle, os.clock, 4)
    ensures RotateIndex(os, oracle, db).1 ==> RotateIndex(os, oracle, db).0.files == Swapped(os.files, db)
  {
    if RotateIndex(os, oracle, db).1 {
      SuccessNeeds(os, oracle, db);
    }
    if |db| + 9 < BSIZE && New(db) in os.files && New(Attr(db)) in os.files && AllDone(oracle, os.clock, 4) {
      FourRenames(os, oracle, db);
    }
  }

  /** Only the k-th of the next calls fails. */
  ghost predicate OnlyFails(oracle: Oracle, clock: nat, k: nat) {
    !oracle(clock + k).Done? && forall t :: clock <= t < clock + 7 && t != clock + k ==> oracle(t).Done?
  }

  ghost predicate Same(files: Files, files': Files, f: string) {
    (f in files <==> f in files') && (f in files && f in files' ==> files[f] == files'[f])
  }

  ghost predicate Stores(files: Files, f: string, c: Content) {
    f in files && files[f] == c
  }

  ghost predicate NeverFails(oracle: Oracle) {
    forall t :: oracle(t).Done?
  }

  /** Old attributes stand in for missing ones. */
  ghost function StaleBack(files: Files, db: string): Files {
    if Attr(db) !in files && Old(Attr(db)) in files then files[Attr(db) := files[Old(Attr(db))]] else files
  }

  /**
    The k-th forward rename fails and no later call does: roll-back leaves the
    database and both new files as they were; only earlier old copies are gone.
    The attributes are as before too, except that when there were none, a failure
    of the last rename brings back a stale old copy of them.
   */
  lemma RollBackRestores(os: Os, oracle: Oracle, db: string, k: nat)
    requires |db| + 9 < BSIZE && k < 4 && OnlyFails(oracle, os.clock, k)
    requires db in os.files && New(db) in os.files && New(Attr(db)) in os.files
    ensures !RotateIndex(os, oracle, db).1
    ensures k == 0 ==> RotateIndex(os, oracle, db).0.files == os.files
    ensures k == 1 || k == 2 ==> RotateIndex(os, oracle, db).0.files == os.files - {Old(db)}
    ensures k == 3 ==> RotateIndex(os, oracle, db).0.files == StaleBack(os.files, db) - {Old(db), Old(Attr(db))}
    ensures k == 3 ==> (Same(RotateIndex(os, oracle, db).0.files, os.files, Attr(db)) <==>
                        Attr(db) in os.files || Old(Attr(db)) !in os.files)
  {
    NamesDiffer(db);
    if k == 0 {
    } else if k == 1 {
    } else if k == 2 {
      AttributesFail(os, oracle, db);
    } else {
      LastRenameFails(os, oracle, db);
    }
  }

  lemma UndoneDb(oracle: Oracle, db: string, files: Files, os2: Os)
    requires db in files && New(db) in files
    requires oracle(os2.clock).Done? && oracle(os2.clock + 1).Done?
    requires os2.files == (files[Old(db) := files[db]] - {New(db)})[db := files[New(db)]]
    ensures UndoDb(os2, oracle, db).files == files - {Old(db)}
  {
    NamesDiffer(db);
  }

  lemma AttributesFail(os: Os, oracle: Oracle, db: string)
    requires |db| + 9 < BSIZE && OnlyFails(oracle, os.clock, 2)
    requires db in os.files && New(db) in os.files
    ensures !RotateIndex(os, oracle, db).1
    ensures RotateIndex(os, oracle, db).0.files == os.files - {Old(db)}
  {
    NamesDiffer(db);
    var os2 := Rename(Rename(os, oracle, db, Old(db)).0, oracle, New(db), db).0;
    var os3 := Rename(os2, oracle, Attr(db), Old(Attr(db))).0;
    assert os3.files == (os.files[Old(db) := os.files[db]] - {New(db)})[db := os.files[New(db)]];
    UndoneDb(oracle, db, os.files, os3);
  }

  lemma LastRenameFails(os: Os, oracle: Oracle, db: string)
    requires |db| + 9 < BSIZE && OnlyFails(oracle, os.clock, 3)
    requires db in os.files && New(db) in os.files && New(Attr(db)) in os.files
    ensures !RotateIndex(os, oracle, db).1
    ensures RotateIndex(os, oracle, db).0.files == StaleBack(os.files, db) - {Old(db), Old(Attr(db))}
  {
    var os2 := Rename(Rename(os, oracle, db, Old(db)).0, oracle, New(db), db).0;
    TwoRenames(os, oracle, db);
    var f := StaleBack(os.files, db) - {Old(Attr(db))};
    AttrRolledBack(os, os2, oracle, db);
    var os4 := Rename(Rename(os2, oracle, Attr(db), Old(Attr(db))).0, oracle, New(Attr(db)), Attr(db)).0;
    UndoneDb(oracle, db, f, Rename(os4, oracle, Old(Attr(db)), Attr(db)).0);
    NamesDiffer(db);
    assert f - {Old(db)} == StaleBack(os.files, db) - {Old(db), Old(Attr(db))};
  }

  /** The renames of the attribute file up to its roll back, when the second one fails. */
  lemma AttrRolledBack(os: Os, os2: Os, oracle: Oracle, db: string)
    requires OnlyFails(oracle, os.clock, 3) && os2.clock == os.clock + 2
    requires db in os.files && New(db) in os.files && New(Attr(db)) in os.files
    requires os2.files == (os.files[Old(db) := os.files[db]] - {New(db)})[db := os.files[New(db)]]
    ensures var os4 := Rename(Rename(os2, oracle, Attr(db), Old(Attr(db))).0, oracle, New(Attr(db)), Attr(db)).0;
            var (os5, f) := (Rename(os4, oracle, Old(Attr(db)), Attr(db)).0, StaleBack(os.files, db) - {Old(Attr(db))});
            db in f && New(db) in f && os5.files == (f[Old(db) := f[db]] - {New(db)})[db := f[New(db)]]
  {
    NamesDiffer(db);
  }

  lemma TwoRenames(os: Os, oracle: Oracle, db: string)
    requires OnlyFails(oracle, os.clock, 3) && db in os.files && New(db) in os.files
    ensures var os2 := Rename(Rename(os, oracle, db, Old(db)).0, oracle, New(db), db).0;
            os2.files == (os.files[Old(db) := os.files[db]] - {New(db)})[db := os.files[New(db)]]
  {
    NamesDiffer(db);
  }
}
